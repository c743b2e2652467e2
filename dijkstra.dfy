/**
 * dijkstrasAlgorithm, and the search alternativeRoute runs once per edge of
 * the primary route: the same loop over a priority queue of routes, the
 * second one refusing to traverse one excluded edge. A recorded cost of 0
 * reads as "no cost yet".
 */
module Dijkstra {
  import opened RoadGraph
  import opened Sequences
  import opened Frontier

  /**
   * The relaxation of the edge to v by a route of cost `newCost`: the cost
   * map after it, and the priority the extended route is enqueued with
   * (`min(newCost, oldCost)`, a recorded 0 standing for infinity).
   */
  function Relax(costMap: map<Node, nat>, v: Node, newCost: nat): (r: (map<Node, nat>, nat))
    ensures r.0.Keys == costMap.Keys + {v}
    ensures forall x :: x in costMap && x != v ==> r.0[x] == costMap[x]
    ensures r.1 == r.0[v]
    ensures r.0[v] <= newCost
    ensures Get(costMap, v) == 0 ==> r.0[v] == newCost
    ensures Get(costMap, v) != 0 ==> r.0[v] <= costMap[v] && (r.0[v] == newCost || r.0[v] == costMap[v])
  {
    var recorded := Get(costMap, v);
    var updated := if recorded == 0 || newCost < recorded then costMap[v := newCost] else costMap;
    var priority := if recorded == 0 || newCost < recorded then newCost else recorded;
    (updated, priority)
  }

  /** A relaxation over a step from the end of a walk w keeps every recorded cost realised by a walk. */
  lemma RelaxRealised(g: Graph, ex: Exclusion, start: Node, costs: map<Node, nat>, walks: map<Node, seq<Node>>,
                      w: seq<Node>, c: nat, u: Node, v: Node) returns (walks': map<Node, seq<Node>>)
    requires Realised(g, ex, start, costs, walks)
    requires WalkFromTo(g, ex, w, start, u) && PathCost(g, w) == c && Step(g, ex, u, v) && v < |g.neighbors|
    ensures Realised(g, ex, start, Relax(costs, v, g.cost(u, v) + c).0, walks')
  {
    var after := Relax(costs, v, g.cost(u, v) + c).0;
    if after == costs {
      walks' := walks;
    } else {
      RealisedExtend(g, ex, start, costs, walks, w, u, v);
      walks' := walks[v := w + [v]];
    }
  }

  /** What holds of the search loop between two rounds. */
  ghost predicate SearchState(g: Graph, ex: Exclusion, start: Node, end: Node, pq: seq<Queued>,
                              visited: set<Node>, expanded: set<Node>, costMap: map<Node, nat>,
                              walks: map<Node, seq<Node>>)
  {
    && Valid(g) && start < |g.neighbors|
    && visited == expanded + {start}
    && end !in expanded
    && (forall j :: 0 <= j < |pq| ==> Tracked(g, ex, start, visited, pq[j].entry) && pq[j].entry.node in costMap)
    && Realised(g, ex, start, costMap, walks)
    && (start in expanded || HasQueued(pq, start))
    && (forall w, x :: w in expanded && Step(g, ex, w, x) ==> x in visited || HasQueued(pq, x))
  }

  /**
   * The search loop: dequeue a route of smallest priority; stop with it when
   * it ends at `end`, otherwise relax and enqueue its extensions to every
   * unvisited neighbour over an allowed edge. The route found is a walk
   * without repeated nodes that never uses the excluded edge; an empty
   * route means that no such walk exists.
   */
  method Search(g: Graph, ex: Exclusion, start: Node, end: Node) returns (path: seq<Node>)
    requires Valid(g) && start < |g.neighbors| && end < |g.neighbors|
    ensures |path| > 0 ==> WalkFromTo(g, ex, path, start, end) && Distinct(path)
    ensures |path| == 0 ==> forall w :: !WalkFromTo(g, ex, w, start, end)
  {
    var pathQueue := [Queued(CurrentPath(start, [start]), 0)];
    var visitedSet := {start};
    var costMap: map<Node, nat> := map[start := 0];
    ghost var expanded: set<Node> := {};
    ghost var walks: map<Node, seq<Node>> := map[start := [start]];
    ghost var n, b := |g.neighbors|, MaxDegree(g.neighbors) + 1;
    ghost var weight: nat := PqWeight(n, b, pathQueue);
    assert HasQueued(pathQueue, start) by {
      assert pathQueue[0].entry.node == start;
    }
    assert Tracked(g, ex, start, visitedSet, pathQueue[0].entry);
    while |pathQueue| > 0
      invariant SearchState(g, ex, start, end, pathQueue, visitedSet, expanded, costMap, walks)
      invariant weight == PqWeight(n, b, pathQueue)
      decreases weight
    {
      MinExists(pathQueue);
      var k: nat :| IsMinAt(pathQueue, k);
      ghost var pq := pathQueue;
      var currPath := pathQueue[k].entry;
      pathQueue := Without(pathQueue, k);
      var u := currPath.node;
      var cost := Get(costMap, u);
      if u == end {
        assert Tracked(g, ex, start, visitedSet, pq[k].entry);
        return currPath.path;
      }
      assert u in costMap by {
        assert pq[k].entry.node in costMap;
      }
      ghost var costs, oldWalks := costMap, walks;
      pathQueue, costMap, walks := RelaxNeighbours(g, ex, start, currPath, cost, visitedSet, costMap, pathQueue, walks);
      RoundKeepsState(g, ex, start, end, pq, k, visitedSet, expanded, costs, oldWalks, pathQueue, costMap, walks);
      assert n == |g.neighbors| && b == MaxDegree(g.neighbors) + 1;
      assert PqWeight(n, b, pathQueue) < PqWeight(n, b, pq);
      assert PqWeight(n, b, pq) == weight;
      weight := PqWeight(n, b, pathQueue);
      visitedSet := visitedSet + {u};
      expanded := expanded + {u};
    }
    forall w | WalkFromTo(g, ex, w, start, end)
      ensures false
    {
      ClosedWalk(g, ex, expanded, w);
    }
    return [];
  }

  /** dijkstrasAlgorithm: the search with no excluded edge. */
  method DijkstrasAlgorithm(g: Graph, start: Node, end: Node) returns (path: seq<Node>)
    requires Valid(g) && start < |g.neighbors| && end < |g.neighbors|
    ensures |path| > 0 ==> WalkFromTo(g, NoExclusion, path, start, end) && Distinct(path)
    ensures |path| == 0 ==> forall w :: !WalkFromTo(g, NoExclusion, w, start, end)
  {
    path := Search(g, NoExclusion, start, end);
  }

  /**
   * The inner loop: for each unvisited neighbour v over an allowed edge, in
   * neighbour order, relax v with the dequeued route's cost plus the edge's
   * cost and enqueue the route extended to v. Every enqueued node has a
   * recorded cost, every priority is at most the extended route's cost, and
   * no recorded cost disappears.
   */
  method RelaxNeighbours(g: Graph, ex: Exclusion, ghost start: Node, currPath: CurrentPath, cost: nat,
                         visitedSet: set<Node>, costMap: map<Node, nat>, pathQueue: seq<Queued>,
                         ghost walks: map<Node, seq<Node>>)
    returns (pq: seq<Queued>, costs: map<Node, nat>, ghost walks': map<Node, seq<Node>>)
    requires Valid(g) && currPath.node < |g.neighbors|
    requires Realised(g, ex, start, costMap, walks)
    requires currPath.node in costMap && cost == costMap[currPath.node]
    ensures |pq| >= |pathQueue| && pq[..|pathQueue|] == pathQueue
    ensures EntriesOf(pq[|pathQueue|..]) == Extensions(currPath.path, Open(g, ex, currPath.node, g.neighbors[currPath.node], visitedSet))
    ensures forall i :: |pathQueue| <= i < |pq| ==>
      pq[i].entry.node in costs && pq[i].priority <= cost + g.cost(currPath.node, pq[i].entry.node)
    ensures costMap.Keys <= costs.Keys
    ensures Realised(g, ex, start, costs, walks')
  {
    var u := currPath.node;
    var ns := g.neighbors[u];
    ghost var added: seq<Queued> := [];
    ghost var wu := walks[u];
    pq := pathQueue;
    costs := costMap;
    walks' := walks;
    var j := 0;
    while j < |ns|
      invariant 0 <= j <= |ns|
      invariant pq == pathQueue + added
      invariant EntriesOf(added) == Extensions(currPath.path, Open(g, ex, u, ns[..j], visitedSet))
      invariant PrioritiesBounded(g, u, cost, pq, |pathQueue|, costs)
      invariant costMap.Keys <= costs.Keys
      invariant Realised(g, ex, start, costs, walks')
      invariant WalkFromTo(g, ex, wu, start, u) && PathCost(g, wu) == cost
    {
      var v := ns[j];
      OpenSnoc(g, ex, u, ns, j, visitedSet);
      if v !in visitedSet && Allowed(g, ex, u, v) {
        var relaxed := Relax(costs, v, g.cost(u, v) + cost);
        var entry := Queued(CurrentPath(v, currPath.path + [v]), relaxed.1);
        walks' := RelaxRealised(g, ex, start, costs, walks', wu, cost, u, v);
        EntriesSnoc(currPath.path, Open(g, ex, u, ns[..j], visitedSet), v, added, entry);
        PrioritiesSnoc(g, u, cost, pq, |pathQueue|, costs, v, currPath.path + [v]);
        AppendSnoc(pathQueue, added, entry);
        pq := pq + [entry];
        costs := relaxed.0;
        added := added + [entry];
      }
      j := j + 1;
    }
    assert ns[..j] == ns;
    assert pq[|pathQueue|..] == added;
  }

  /**
   * Every entry of `pq` from index `lo` on is for a node with a recorded cost,
   * with a priority no greater than the cost of reaching it from u.
   */
  predicate PrioritiesBounded(g: Graph, u: Node, cost: nat, pq: seq<Queued>, lo: nat, costs: map<Node, nat>)
  {
    forall i :: lo <= i < |pq| ==> pq[i].entry.node in costs && pq[i].priority <= cost + g.cost(u, pq[i].entry.node)
  }

  /** Relaxing v and enqueueing it with the priority the relaxation yields keeps the priorities bounded. */
  lemma PrioritiesSnoc(g: Graph, u: Node, cost: nat, pq: seq<Queued>, lo: nat, costs: map<Node, nat>,
                       v: Node, p: seq<Node>)
    requires PrioritiesBounded(g, u, cost, pq, lo, costs)
    ensures var relaxed := Relax(costs, v, g.cost(u, v) + cost);
      PrioritiesBounded(g, u, cost, pq + [Queued(CurrentPath(v, p), relaxed.1)], lo, relaxed.0)
  {
    var relaxed := Relax(costs, v, g.cost(u, v) + cost);
    var pq' := pq + [Queued(CurrentPath(v, p), relaxed.1)];
    forall i | lo <= i < |pq'|
      ensures pq'[i].entry.node in relaxed.0 && pq'[i].priority <= cost + g.cost(u, pq'[i].entry.node)
    {
      if i < |pq| {
        assert pq'[i] == pq[i];
      }
    }
  }

  /** Going one neighbour further adds it to the open ones exactly when it is open. */
  lemma AppendSnoc(a: seq<Queued>, b: seq<Queued>, x: Queued)
    ensures (a + b) + [x] == a + (b + [x])
  {
  }

  lemma EntriesSnoc(p: seq<Node>, vs: seq<Node>, v: Node, added: seq<Queued>, entry: Queued)
    requires EntriesOf(added) == Extensions(p, vs) && entry.entry == CurrentPath(v, p + [v])
    ensures EntriesOf(added + [entry]) == Extensions(p, vs + [v])
  {
    assert (vs + [v])[..|vs|] == vs;
    assert (added + [entry])[..|added|] == added;
  }

  /** What the inner loop leaves in the queue: the queue without the dequeued entry, then its extensions. */
  ghost predicate Extended(g: Graph, ex: Exclusion, pq: seq<Queued>, k: nat, visited: set<Node>, pq': seq<Queued>)
    requires k < |pq| && pq[k].entry.node < |g.neighbors|
  {
    var e := pq[k].entry;
    && |pq'| >= |Without(pq, k)|
    && pq'[..|Without(pq, k)|] == Without(pq, k)
    && EntriesOf(pq'[|Without(pq, k)|..]) == Extensions(e.path, Open(g, ex, e.node, g.neighbors[e.node], visited))
  }

  /** An entry of the queue after a round: one that was waiting, or an extension of the dequeued route. */
  lemma ExtendedEntry(g: Graph, ex: Exclusion, pq: seq<Queued>, k: nat, visited: set<Node>, pq': seq<Queued>, j: nat)
    requires k < |pq| && pq[k].entry.node < |g.neighbors| && Extended(g, ex, pq, k, visited, pq')
    requires j < |pq'|
    ensures var e := pq[k].entry;
      var o := Open(g, ex, e.node, g.neighbors[e.node], visited);
      && (j < |pq| - 1 ==> pq'[j] == if j < k then pq[j] else pq[j + 1])
      && (j >= |pq| - 1 ==> j - (|pq| - 1) < |o| && pq'[j].entry == CurrentPath(o[j - (|pq| - 1)], e.path + [o[j - (|pq| - 1)]]))
  {
    var rest := Without(pq, k);
    if j < |rest| {
      assert pq'[j] == rest[j];
    } else {
      assert pq'[j] == pq'[|rest|..][j - |rest|];
    }
  }

  /**
   * One round that dequeues entry k, whose node is not `end`, and enqueues
   * its extensions keeps the loop's state with that node expanded, and
   * lowers the measure.
   */
  lemma RoundKeepsState(g: Graph, ex: Exclusion, start: Node, end: Node, pq: seq<Queued>, k: nat,
                        visited: set<Node>, expanded: set<Node>, costMap: map<Node, nat>, walks: map<Node, seq<Node>>,
                        pq': seq<Queued>, costMap': map<Node, nat>, walks': map<Node, seq<Node>>)
    requires k < |pq| && pq[k].entry.node != end
    requires SearchState(g, ex, start, end, pq, visited, expanded, costMap, walks)
    requires pq[k].entry.node < |g.neighbors| && Extended(g, ex, pq, k, visited, pq')
    requires costMap.Keys <= costMap'.Keys
    requires forall i :: |pq| - 1 <= i < |pq'| ==> pq'[i].entry.node in costMap'
    requires Realised(g, ex, start, costMap', walks')
    ensures var u := pq[k].entry.node;
      SearchState(g, ex, start, end, pq', visited + {u}, expanded + {u}, costMap', walks')
    ensures PqWeight(|g.neighbors|, MaxDegree(g.neighbors) + 1, pq')
          < PqWeight(|g.neighbors|, MaxDegree(g.neighbors) + 1, pq)
  {
    var e := pq[k].entry;
    var o := Open(g, ex, e.node, g.neighbors[e.node], visited);
    TrackedRound(g, ex, start, pq, k, visited, pq');
    forall j | 0 <= j < |pq'|
      ensures pq'[j].entry.node in costMap'
    {
      ExtendedEntry(g, ex, pq, k, visited, pq', j);
    }
    ClosedRound(g, ex, start, pq, k, visited, expanded, pq');
    PqWeightDrops(g, ex, start, pq, k, visited, pq');
  }

  /** Every entry after a round is tracked, the visited set now holding the expanded node. */
  lemma TrackedRound(g: Graph, ex: Exclusion, start: Node, pq: seq<Queued>, k: nat, visited: set<Node>, pq': seq<Queued>)
    requires Valid(g) && k < |pq|
    requires forall j :: 0 <= j < |pq| ==> Tracked(g, ex, start, visited, pq[j].entry)
    requires pq[k].entry.node < |g.neighbors| && Extended(g, ex, pq, k, visited, pq')
    ensures forall j :: 0 <= j < |pq'| ==> Tracked(g, ex, start, visited + {pq[k].entry.node}, pq'[j].entry)
  {
    var e := pq[k].entry;
    var o := Open(g, ex, e.node, g.neighbors[e.node], visited);
    assert Tracked(g, ex, start, visited, e);
    forall j | 0 <= j < |pq'|
      ensures Tracked(g, ex, start, visited + {e.node}, pq'[j].entry)
    {
      ExtendedEntry(g, ex, pq, k, visited, pq', j);
      if j < |pq| - 1 {
        var i := if j < k then j else j + 1;
        assert Tracked(g, ex, start, visited, pq[i].entry);
      } else {
        var v := o[j - (|pq| - 1)];
        TrackedExtend(g, ex, start, visited, e, v);
      }
    }
  }

  /** After a round every expanded node's neighbours are still visited or queued. */
  lemma ClosedRound(g: Graph, ex: Exclusion, start: Node, pq: seq<Queued>, k: nat, visited: set<Node>,
                    expanded: set<Node>, pq': seq<Queued>)
    requires k < |pq| && pq[k].entry.node < |g.neighbors| && Extended(g, ex, pq, k, visited, pq')
    requires start in expanded || HasQueued(pq, start)
    requires forall w, x :: w in expanded && Step(g, ex, w, x) ==> x in visited || HasQueued(pq, x)
    ensures var u := pq[k].entry.node;
      && (start in expanded + {u} || HasQueued(pq', start))
      && (forall w, x :: w in expanded + {u} && Step(g, ex, w, x) ==> x in visited + {u} || HasQueued(pq', x))
  {
    var e := pq[k].entry;
    var u := e.node;
    var o := Open(g, ex, u, g.neighbors[u], visited);
    HasQueuedKept(g, ex, pq, k, visited, pq', start);
    forall w, x | w in expanded + {u} && Step(g, ex, w, x)
      ensures x in visited + {u} || HasQueued(pq', x)
    {
      if w == u {
        if x !in visited + {u} {
          assert x in o;
          var i :| 0 <= i < |o| && o[i] == x;
          ExtendedEntry(g, ex, pq, k, visited, pq', |pq| - 1 + i);
        }
      } else {
        HasQueuedKept(g, ex, pq, k, visited, pq', x);
      }
    }
  }

  /** An entry for x other than the dequeued one stays in the queue. */
  lemma HasQueuedKept(g: Graph, ex: Exclusion, pq: seq<Queued>, k: nat, visited: set<Node>, pq': seq<Queued>, x: Node)
    requires k < |pq| && pq[k].entry.node < |g.neighbors| && Extended(g, ex, pq, k, visited, pq')
    ensures HasQueued(pq, x) && x != pq[k].entry.node ==> HasQueued(pq', x)
  {
    if HasQueued(pq, x) && x != pq[k].entry.node {
      var j :| 0 <= j < |pq| && pq[j].entry.node == x;
      var i := if j < k then j else j - 1;
      ExtendedEntry(g, ex, pq, k, visited, pq', i);
    }
  }

  /** Removing entry k takes its weight off the queue's. */
  lemma {:induction false} WithoutWeight(n: nat, b: nat, pq: seq<Queued>, k: nat)
    requires k < |pq|
    ensures PqWeight(n, b, pq) == PqWeight(n, b, Without(pq, k)) + PathWeight(n, b, pq[k].entry.path)
  {
    PqWeightAppend(n, b, pq[..k], [pq[k]]);
    PqWeightAppend(n, b, pq[..k] + [pq[k]], pq[k + 1..]);
    PqWeightAppend(n, b, pq[..k], pq[k + 1..]);
    assert pq[..k] + [pq[k]] + pq[k + 1..] == pq;
    assert [pq[k]][..0] == [];
  }

  /** The extensions of the dequeued route weigh less than the dequeued entry. */
  lemma PqWeightDrops(g: Graph, ex: Exclusion, start: Node, pq: seq<Queued>, k: nat, visited: set<Node>,
                      pq': seq<Queued>)
    requires Valid(g) && k < |pq|
    requires forall j :: 0 <= j < |pq| ==> Tracked(g, ex, start, visited, pq[j].entry)
    requires pq[k].entry.node < |g.neighbors| && Extended(g, ex, pq, k, visited, pq')
    requires forall j :: 0 <= j < |pq'| ==> Tracked(g, ex, start, visited + {pq[k].entry.node}, pq'[j].entry)
    ensures PqWeight(|g.neighbors|, MaxDegree(g.neighbors) + 1, pq')
          < PqWeight(|g.neighbors|, MaxDegree(g.neighbors) + 1, pq)
  {
    var n, b := |g.neighbors|, MaxDegree(g.neighbors) + 1;
    var e := pq[k].entry;
    var rest := Without(pq, k);
    var added := pq'[|rest|..];
    assert PqWeight(n, b, added) < PathWeight(n, b, e.path) by {
      var o := Open(g, ex, e.node, g.neighbors[e.node], visited);
      assert |added| == |o| <= |g.neighbors[e.node]| < b;
      assert |e.path| <= n && (|added| > 0 ==> |e.path| < n) by {
        TrackedBounded(g, ex, start, visited, e);
        if |added| > 0 {
          ExtendedEntry(g, ex, pq, k, visited, pq', |rest|);
          TrackedBounded(g, ex, start, visited + {e.node}, pq'[|rest|].entry);
        }
      }
      forall j | 0 <= j < |added|
        ensures |added[j].entry.path| == |e.path| + 1
      {
        ExtendedEntry(g, ex, pq, k, visited, pq', |rest| + j);
      }
      PqExtensionsLighter(n, b, e.path, added);
    }
    assert PqWeight(n, b, pq') == PqWeight(n, b, rest) + PqWeight(n, b, added) by {
      SplitAt(pq', |rest|);
      PqWeightAppend(n, b, rest, added);
    }
    WithoutWeight(n, b, pq, k);
  }
}
