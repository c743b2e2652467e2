/**
 * breadthFirstSearch: a FIFO queue of routes grown one node at a time. The
 * start is marked visited before the loop; every other node is marked visited
 * only once it has been dequeued and expanded, so a node can wait in the queue
 * more than once and can be expanded more than once.
 */
module BreadthFirst {
  import opened RoadGraph
  import opened Frontier

  /**
   * x has been expanded, first with a route of at most b nodes (`level`
   * records that length for every expanded node), or x waits in the queue
   * with a route of at most b nodes.
   */
  ghost predicate Reached(q: seq<CurrentPath>, level: map<Node, nat>, x: Node, b: nat)
  {
    (x in level && level[x] <= b) || exists j :: 0 <= j < |q| && q[j].node == x && |q[j].path| <= b
  }

  /** Routes in the queue never get shorter towards the back, and are at most one node longer than the front one. */
  ghost predicate Layered(q: seq<CurrentPath>)
  {
    && (forall i, j :: 0 <= i < j < |q| ==> |q[i].path| <= |q[j].path|)
    && (forall j :: 0 <= j < |q| ==> |q[j].path| <= |q[0].path| + 1)
  }

  /** Every expanded node's neighbours were reached with a route one node longer. */
  ghost predicate Closed(g: Graph, start: Node, q: seq<CurrentPath>, level: map<Node, nat>)
  {
    forall w, x :: w in level && Step(g, NoExclusion, w, x) ==> x == start || Reached(q, level, x, level[w] + 1)
  }

  /** What holds of the search loop between two rounds; `level.Keys` are the expanded nodes. */
  ghost predicate SearchState(g: Graph, start: Node, end: Node, q: seq<CurrentPath>, visited: set<Node>,
                              level: map<Node, nat>)
  {
    && Valid(g) && start < |g.neighbors|
    && visited == level.Keys + {start}
    && end !in level
    && (forall j :: 0 <= j < |q| ==> Tracked(g, NoExclusion, start, visited, q[j]))
    && Layered(q)
    && (|q| > 0 ==> forall x :: x in level ==> level[x] <= |q[0].path|)
    && Reached(q, level, start, 1)
    && Closed(g, start, q, level)
  }

  /**
   * breadthFirstSearch: the route of the first dequeued entry for `end`,
   * which has the fewest nodes of all routes from start to end; empty
   * only when end cannot be reached.
   */
  method BreadthFirstSearch(g: Graph, start: Node, end: Node) returns (path: seq<Node>)
    requires Valid(g) && start < |g.neighbors| && end < |g.neighbors|
    ensures |path| > 0 ==> WalkFromTo(g, NoExclusion, path, start, end) && Distinct(path)
    ensures |path| > 0 ==> forall w :: WalkFromTo(g, NoExclusion, w, start, end) ==> |path| <= |w|
    ensures |path| == 0 ==> forall w :: !WalkFromTo(g, NoExclusion, w, start, end)
  {
    var pathQueue := [CurrentPath(start, [start])];
    var visitedSet := {start};
    ghost var level: map<Node, nat> := map[];
    ghost var n, b := |g.neighbors|, MaxDegree(g.neighbors) + 1;
    while |pathQueue| > 0
      invariant SearchState(g, start, end, pathQueue, visitedSet, level)
      decreases QueueWeight(n, b, pathQueue)
    {
      ghost var q := pathQueue;
      var currPath := pathQueue[0];
      pathQueue := pathQueue[1..];
      var u := currPath.node;
      if u == end {
        forall w | WalkFromTo(g, NoExclusion, w, start, end)
          ensures |currPath.path| <= |w|
        {
          FewestNodes(g, start, end, q, visitedSet, level, w);
        }
        return currPath.path;
      }
      pathQueue := EnqueueUnvisited(g, currPath, visitedSet, pathQueue);
      ExpandKeepsState(g, start, end, q, visitedSet, level);
      visitedSet := visitedSet + {u};
      if u !in level {
        level := level[u := |currPath.path|];
      }
    }
    forall w | WalkFromTo(g, NoExclusion, w, start, end)
      ensures false
    {
      assert forall x, y :: x in level && Step(g, NoExclusion, x, y) ==> y in level by {
        assert Closed(g, start, pathQueue, level);
      }
      ClosedWalk(g, NoExclusion, level.Keys, w);
    }
    return [];
  }

  /** The inner loop: enqueue the route extended to each unvisited neighbour, in neighbour order. */
  method EnqueueUnvisited(g: Graph, currPath: CurrentPath, visitedSet: set<Node>, pathQueue: seq<CurrentPath>)
    returns (q: seq<CurrentPath>)
    requires currPath.node < |g.neighbors|
    ensures q == pathQueue + Extensions(currPath.path, Open(g, NoExclusion, currPath.node, g.neighbors[currPath.node], visitedSet))
  {
    var ns := g.neighbors[currPath.node];
    q := pathQueue;
    var j := 0;
    while j < |ns|
      invariant 0 <= j <= |ns|
      invariant q == pathQueue + Extensions(currPath.path, Open(g, NoExclusion, currPath.node, ns[..j], visitedSet))
    {
      var v := ns[j];
      ghost var o := Open(g, NoExclusion, currPath.node, ns[..j], visitedSet);
      OpenSnoc(g, NoExclusion, currPath.node, ns, j, visitedSet);
      if v !in visitedSet {
        ExtensionsSnoc(currPath.path, o, v);
        PathsSnoc(pathQueue, Extensions(currPath.path, o), CurrentPath(v, currPath.path + [v]));
        q := q + [CurrentPath(v, currPath.path + [v])];
      }
      j := j + 1;
    }
    assert ns[..j] == ns;
  }

  /**
   * When `end` is at the front, no walk from start to end has fewer nodes
   * than the front route.
   */
  lemma FewestNodes(g: Graph, start: Node, end: Node, q: seq<CurrentPath>, visited: set<Node>,
                    level: map<Node, nat>, w: seq<Node>)
    requires SearchState(g, start, end, q, visited, level)
    requires |q| > 0 && q[0].node == end
    requires WalkFromTo(g, NoExclusion, w, start, end)
    ensures |q[0].path| <= |w|
  {
    WalkLevels(g, start, q, level, w, |w| - 1);
  }

  /** Along a walk from start, the i-th node is reached within i + 1 nodes, or the front route is that short. */
  lemma {:induction false} WalkLevels(g: Graph, start: Node, q: seq<CurrentPath>, level: map<Node, nat>,
                                      w: seq<Node>, i: nat)
    requires |q| > 0 && Layered(q)
    requires Reached(q, level, start, 1) && Closed(g, start, q, level)
    requires IsWalk(g, NoExclusion, w) && w[0] == start && i < |w|
    ensures |q[0].path| <= i + 1 || Reached(q, level, w[i], i + 1)
    decreases i
  {
    if i > 0 {
      WalkLevels(g, start, q, level, w, i - 1);
      var a := w[i - 1];
      assert Step(g, NoExclusion, a, w[i]);
      if a in level && level[a] <= i {
        if w[i] == start {
          ReachedWeaker(q, level, start, 1, i + 1);
        } else {
          ReachedWeaker(q, level, w[i], level[a] + 1, i + 1);
        }
      }
    }
  }

  lemma ReachedWeaker(q: seq<CurrentPath>, level: map<Node, nat>, x: Node, b: nat, c: nat)
    requires Reached(q, level, x, b) && b <= c
    ensures Reached(q, level, x, c)
  {
  }

  /**
   * One round of the loop that does not dequeue `end` keeps the loop's state,
   * with the front entry's node expanded, and lowers the measure.
   */
  lemma ExpandKeepsState(g: Graph, start: Node, end: Node, q: seq<CurrentPath>, visited: set<Node>,
                         level: map<Node, nat>)
    requires SearchState(g, start, end, q, visited, level)
    requires |q| > 0 && q[0].node != end
    ensures var u := q[0].node;
      var q' := q[1..] + Extensions(q[0].path, Open(g, NoExclusion, u, g.neighbors[u], visited));
      var level' := if u in level then level else level[u := |q[0].path|];
      && SearchState(g, start, end, q', visited + {u}, level')
      && QueueWeight(|g.neighbors|, MaxDegree(g.neighbors) + 1, q') < QueueWeight(|g.neighbors|, MaxDegree(g.neighbors) + 1, q)
  {
    var u := q[0].node;
    var added := Extensions(q[0].path, Open(g, NoExclusion, u, g.neighbors[u], visited));
    TrackedKept(g, start, q, visited, added);
    LayeredKept(q, added);
    ClosedKept(g, start, end, q, visited, level);
    WeightDrops(g, start, q, visited, added);
  }

  /** Every entry of the queue after a round is tracked, the visited set now holding the expanded node. */
  lemma TrackedKept(g: Graph, start: Node, q: seq<CurrentPath>, visited: set<Node>, added: seq<CurrentPath>)
    requires Valid(g) && |q| > 0
    requires forall j :: 0 <= j < |q| ==> Tracked(g, NoExclusion, start, visited, q[j])
    requires q[0].node < |g.neighbors|
    requires added == Extensions(q[0].path, Open(g, NoExclusion, q[0].node, g.neighbors[q[0].node], visited))
    ensures forall j :: 0 <= j < |added| ==> Tracked(g, NoExclusion, start, visited + {q[0].node}, added[j])
    ensures forall j :: 0 <= j < |q[1..] + added| ==> Tracked(g, NoExclusion, start, visited + {q[0].node}, (q[1..] + added)[j])
  {
    var q' := q[1..] + added;
    var visited' := visited + {q[0].node};
    assert Tracked(g, NoExclusion, start, visited, q[0]);
    forall j | 0 <= j < |added|
      ensures Tracked(g, NoExclusion, start, visited', added[j])
    {
      TrackedExtend(g, NoExclusion, start, visited, q[0], added[j].node);
    }
    forall j | 0 <= j < |q'|
      ensures Tracked(g, NoExclusion, start, visited', q'[j])
    {
      if j < |q| - 1 {
        assert q'[j] == q[j + 1];
        assert Tracked(g, NoExclusion, start, visited, q[j + 1]);
      } else {
        assert q'[j] == added[j - (|q| - 1)];
      }
    }
  }

  /** After a round every expanded node's neighbours are still reached within one more node. */
  lemma ClosedKept(g: Graph, start: Node, end: Node, q: seq<CurrentPath>, visited: set<Node>, level: map<Node, nat>)
    requires SearchState(g, start, end, q, visited, level)
    requires |q| > 0
    ensures var u := q[0].node;
      var q' := q[1..] + Extensions(q[0].path, Open(g, NoExclusion, u, g.neighbors[u], visited));
      var level' := if u in level then level else level[u := |q[0].path|];
      && Reached(q', level', start, 1)
      && Closed(g, start, q', level')
  {
    var u := q[0].node;
    var added := Extensions(q[0].path, Open(g, NoExclusion, u, g.neighbors[u], visited));
    var q' := q[1..] + added;
    var level' := if u in level then level else level[u := |q[0].path|];
    ReachedKept(q, level, added, start, 1);
    forall w, x | w in level' && Step(g, NoExclusion, w, x)
      ensures x == start || Reached(q', level', x, level'[w] + 1)
    {
      if w in level {
        assert Closed(g, start, q, level);
        if x != start {
          ReachedKept(q, level, added, x, level[w] + 1);
        }
      } else {
        ExpandedNeighbour(g, start, end, q, visited, level, x);
      }
    }
  }

  /** A neighbour of the node expanded for the first time is reached within one more node. */
  lemma ExpandedNeighbour(g: Graph, start: Node, end: Node, q: seq<CurrentPath>, visited: set<Node>,
                          level: map<Node, nat>, x: Node)
    requires SearchState(g, start, end, q, visited, level)
    requires |q| > 0 && q[0].node !in level && Step(g, NoExclusion, q[0].node, x)
    ensures var u := q[0].node;
      var q' := q[1..] + Extensions(q[0].path, Open(g, NoExclusion, u, g.neighbors[u], visited));
      x == start || Reached(q', level[u := |q[0].path|], x, |q[0].path| + 1)
  {
    var u := q[0].node;
    var k := |q[0].path|;
    var o := Open(g, NoExclusion, u, g.neighbors[u], visited);
    var added := Extensions(q[0].path, o);
    var q' := q[1..] + added;
    if x != start {
      if x in visited {
        assert x in level && level[x] <= k;
        assert x != u;
      } else {
        assert x in o;
        var i :| 0 <= i < |o| && o[i] == x;
        assert q'[|q| - 1 + i] == added[i];
      }
    }
  }

  /** Facts about reaching a node survive dequeuing the front, expanding its node and enqueuing its extensions. */
  lemma ReachedKept(q: seq<CurrentPath>, level: map<Node, nat>, added: seq<CurrentPath>, x: Node, c: nat)
    requires |q| > 0 && Layered(q) && forall y :: y in level ==> level[y] <= |q[0].path|
    requires Reached(q, level, x, c)
    ensures var u := q[0].node;
      Reached(q[1..] + added, if u in level then level else level[u := |q[0].path|], x, c)
  {
    var u := q[0].node;
    var q' := q[1..] + added;
    var level' := if u in level then level else level[u := |q[0].path|];
    if !(x in level && level[x] <= c) {
      var j :| 0 <= j < |q| && q[j].node == x && |q[j].path| <= c;
      if j > 0 {
        assert q'[j - 1] == q[j];
      } else {
        assert x in level' && level'[x] <= c;
      }
    }
  }

  /** The queue after a round is still layered. */
  lemma LayeredKept(q: seq<CurrentPath>, added: seq<CurrentPath>)
    requires |q| > 0 && Layered(q)
    requires forall j :: 0 <= j < |added| ==> |added[j].path| == |q[0].path| + 1
    ensures Layered(q[1..] + added)
    ensures |q[1..] + added| > 0 ==> |q[0].path| <= |(q[1..] + added)[0].path|
  {
    var q' := q[1..] + added;
    forall i, j | 0 <= i < j < |q'|
      ensures |q'[i].path| <= |q'[j].path|
    {
      if j < |q| - 1 {
        assert q'[i] == q[i + 1] && q'[j] == q[j + 1];
      } else if i < |q| - 1 {
        assert q'[i] == q[i + 1];
      }
    }
    if |q'| > 0 {
      if |q| > 1 {
        assert q'[0] == q[1];
        forall j | 0 <= j < |q'|
          ensures |q'[j].path| <= |q'[0].path| + 1
        {
          if j < |q| - 1 {
            assert q'[j] == q[j + 1];
          }
        }
      }
    }
  }

  /** The extensions of the front route weigh less than the front entry. */
  lemma WeightDrops(g: Graph, start: Node, q: seq<CurrentPath>, visited: set<Node>, added: seq<CurrentPath>)
    requires Valid(g) && |q| > 0
    requires Tracked(g, NoExclusion, start, visited, q[0])
    requires q[0].node < |g.neighbors|
    requires added == Extensions(q[0].path, Open(g, NoExclusion, q[0].node, g.neighbors[q[0].node], visited))
    requires forall j :: 0 <= j < |added| ==> Tracked(g, NoExclusion, start, visited + {q[0].node}, added[j])
    ensures QueueWeight(|g.neighbors|, MaxDegree(g.neighbors) + 1, q[1..] + added)
          < QueueWeight(|g.neighbors|, MaxDegree(g.neighbors) + 1, q)
  {
    var n, b := |g.neighbors|, MaxDegree(g.neighbors) + 1;
    var e := q[0];
    assert |added| < b by { assert |added| <= |g.neighbors[e.node]|; }
    assert |e.path| <= n && (|added| > 0 ==> |e.path| < n) by {
      TrackedBounded(g, NoExclusion, start, visited, e);
      if |added| > 0 {
        TrackedBounded(g, NoExclusion, start, visited + {e.node}, added[0]);
      }
    }
    QueueExtensionsLighter(n, b, e.path, added);
    ReplaceFront(n, b, q, added);
  }

  /** Replacing the front entry by entries lighter than it makes the queue lighter. */
  lemma ReplaceFront(n: nat, b: nat, q: seq<CurrentPath>, added: seq<CurrentPath>)
    requires |q| > 0 && QueueWeight(n, b, added) < PathWeight(n, b, q[0].path)
    ensures QueueWeight(n, b, q[1..] + added) < QueueWeight(n, b, q)
  {
    QueueWeightAppend(n, b, [q[0]], q[1..]);
    assert [q[0]] + q[1..] == q;
    assert QueueWeight(n, b, [q[0]]) == PathWeight(n, b, q[0].path);
    QueueWeightAppend(n, b, q[1..], added);
  }
}
