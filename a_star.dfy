/**
 * aStar: a search over a priority queue of routes ordered by g + h, where g
 * is the recorded cost of reaching a node (0 reading as "no cost yet") and h
 * the heuristic estimate of the rest of the way. A node already expanded is
 * enqueued again only over a route that beats its recorded cost.
 *
 * The loop need not end: a recorded g of 0 reads as infinity, so over roads
 * of cost 0 a node can be enqueued again and again. The search therefore
 * takes a bound on the number of rounds and reports when it runs out.
 */
module AStar {
  import opened RoadGraph
  import opened Sequences
  import opened Frontier

  datatype Outcome = Done(path: seq<Node>) | OutOfFuel

  /** A route to a node recorded with cost `gv` beats it when `gv` is 0 (no cost yet) or larger. */
  predicate Beats(gTent: nat, gv: nat)
  {
    gv == 0 || gTent < gv
  }

  /**
   * What expanding u, reached by route p at recorded cost gCurr, does over
   * the neighbours `ns` in order: each neighbour v gets the tentative cost
   * gCurr + cost(u, v); it is skipped when it is visited and that cost does
   * not beat its recorded one, and otherwise the cost is recorded and the
   * route extended to v is enqueued with priority g + h(v). The result is the
   * entries enqueued and the cost map afterwards.
   */
  function Expansion(g: Graph, h: Node -> nat, u: Node, p: seq<Node>, gCurr: nat, visited: set<Node>,
                     ns: seq<Node>, gMap: map<Node, nat>): (r: (seq<Queued>, map<Node, nat>))
    ensures |r.0| <= |ns|
    ensures gMap.Keys <= r.1.Keys
  {
    if |ns| == 0 then ([], gMap)
    else
      var prev := Expansion(g, h, u, p, gCurr, visited, ns[..|ns| - 1], gMap);
      var v := ns[|ns| - 1];
      var gTent := gCurr + g.cost(u, v);
      if v in visited && !Beats(gTent, Get(prev.1, v)) then prev
      else (prev.0 + [Queued(CurrentPath(v, p + [v]), gTent + h(v))], prev.1[v := gTent])
  }

  /**
   * Every entry the expansion enqueues extends p by one of the neighbours,
   * has that neighbour's cost recorded, and has priority g + h; no recorded
   * cost disappears.
   */
  lemma {:induction false} ExpansionEntries(g: Graph, h: Node -> nat, u: Node, p: seq<Node>, gCurr: nat,
                                            visited: set<Node>, ns: seq<Node>, gMap: map<Node, nat>)
    ensures var r := Expansion(g, h, u, p, gCurr, visited, ns, gMap);
      && gMap.Keys <= r.1.Keys
      && forall i :: 0 <= i < |r.0| ==>
           var v := r.0[i].entry.node;
           && v in ns && v in r.1
           && r.0[i].entry.path == p + [v]
           && r.0[i].priority == gCurr + g.cost(u, v) + h(v)
    decreases |ns|
  {
    if |ns| > 0 {
      var ms := ns[..|ns| - 1];
      ExpansionEntries(g, h, u, p, gCurr, visited, ms, gMap);
      var r := Expansion(g, h, u, p, gCurr, visited, ms, gMap);
      var r' := Expansion(g, h, u, p, gCurr, visited, ns, gMap);
      forall i | 0 <= i < |r'.0|
        ensures r'.0[i].entry.node in ns && r'.0[i].entry.node in r'.1
      {
        if i < |r.0| {
          assert r'.0[i] == r.0[i];
          assert r.0[i].entry.node in ms;
        }
      }
    }
  }

  /** Every neighbour the expansion passes over is visited or gets an entry. */
  lemma {:induction false} ExpansionCovers(g: Graph, h: Node -> nat, u: Node, p: seq<Node>, gCurr: nat,
                                           visited: set<Node>, ns: seq<Node>, gMap: map<Node, nat>)
    ensures var r := Expansion(g, h, u, p, gCurr, visited, ns, gMap);
      forall v :: v in ns ==> v in visited || HasQueued(r.0, v)
    decreases |ns|
  {
    if |ns| > 0 {
      var ms := ns[..|ns| - 1];
      ExpansionCovers(g, h, u, p, gCurr, visited, ms, gMap);
      var r := Expansion(g, h, u, p, gCurr, visited, ms, gMap);
      var r' := Expansion(g, h, u, p, gCurr, visited, ns, gMap);
      assert ns == ms + [ns[|ns| - 1]];
      forall v | v in ns && v !in visited
        ensures HasQueued(r'.0, v)
      {
        if v in ms {
          var j :| 0 <= j < |r.0| && r.0[j].entry.node == v;
          assert r'.0[j] == r.0[j];
        } else {
          assert r'.0[|r'.0| - 1].entry.node == v;
        }
      }
    }
  }

  /**
   * When u is reached by a walk of cost gCurr, every cost the expansion
   * records is the cost of a walk from the start.
   */
  lemma {:induction false} ExpansionRealised(g: Graph, h: Node -> nat, start: Node, u: Node, p: seq<Node>,
                                             gCurr: nat, visited: set<Node>, ns: seq<Node>,
                                             gMap: map<Node, nat>, walks: map<Node, seq<Node>>, wu: seq<Node>)
    returns (walks': map<Node, seq<Node>>)
    requires WellFormed(g) && u < |g.neighbors| && forall v :: v in ns ==> v in g.neighbors[u]
    requires WalkFromTo(g, NoExclusion, wu, start, u) && PathCost(g, wu) == gCurr
    requires Realised(g, NoExclusion, start, gMap, walks)
    ensures Realised(g, NoExclusion, start, Expansion(g, h, u, p, gCurr, visited, ns, gMap).1, walks')
    decreases |ns|
  {
    if |ns| == 0 {
      walks' := walks;
    } else {
      var ms := ns[..|ns| - 1];
      assert forall v :: v in ms ==> v in ns;
      walks' := ExpansionRealised(g, h, start, u, p, gCurr, visited, ms, gMap, walks, wu);
      var r := Expansion(g, h, u, p, gCurr, visited, ms, gMap);
      var v := ns[|ns| - 1];
      if !(v in visited && !Beats(gCurr + g.cost(u, v), Get(r.1, v))) {
        RealisedExtend(g, NoExclusion, start, r.1, walks', wu, u, v);
        walks' := walks'[v := wu + [v]];
      }
    }
  }

  /**
   * The loop over u's neighbours: enqueues and records exactly what the
   * expansion of u prescribes, after the entries already queued.
   */
  method ExpandNeighbours(g: Graph, h: Node -> nat, currPath: CurrentPath, gCurr: nat, visitedSet: set<Node>,
                          gMap: map<Node, nat>, pathQueue: seq<Queued>)
    returns (pq: seq<Queued>, gMap': map<Node, nat>)
    requires currPath.node < |g.neighbors|
    ensures var r := Expansion(g, h, currPath.node, currPath.path, gCurr, visitedSet, g.neighbors[currPath.node], gMap);
      pq == pathQueue + r.0 && gMap' == r.1
  {
    var u := currPath.node;
    var ns := g.neighbors[u];
    pq := pathQueue;
    gMap' := gMap;
    ghost var added: seq<Queued> := [];
    var j := 0;
    while j < |ns|
      invariant 0 <= j <= |ns|
      invariant var r := Expansion(g, h, u, currPath.path, gCurr, visitedSet, ns[..j], gMap);
        added == r.0 && gMap' == r.1 && pq == pathQueue + added
    {
      var v := ns[j];
      var gTent := gCurr + g.cost(u, v);
      ghost var prev := Expansion(g, h, u, currPath.path, gCurr, visitedSet, ns[..j], gMap);
      assert Expansion(g, h, u, currPath.path, gCurr, visitedSet, ns[..j + 1], gMap)
        == if v in visitedSet && !Beats(gTent, Get(prev.1, v)) then prev
           else (prev.0 + [Queued(CurrentPath(v, currPath.path + [v]), gTent + h(v))], prev.1[v := gTent]) by {
        assert ns[..j + 1][..j] == ns[..j];
      }
      var gv := Get(gMap', v);
      if v in visitedSet && !Beats(gTent, gv) {
        // an expanded node reached again at no better cost
      } else {
        var entry := Queued(CurrentPath(v, currPath.path + [v]), gTent + h(v));
        gMap' := gMap'[v := gTent];
        QueueSnoc(pathQueue, added, entry);
        pq := pq + [entry];
        added := added + [entry];
      }
      j := j + 1;
    }
    assert ns[..j] == ns;
  }

  lemma QueueSnoc(a: seq<Queued>, b: seq<Queued>, x: Queued)
    ensures (a + b) + [x] == a + (b + [x])
  {
  }

  /** What holds of the search loop between two rounds. */
  ghost predicate SearchState(g: Graph, start: Node, end: Node, pq: seq<Queued>, visited: set<Node>,
                              expanded: set<Node>, gMap: map<Node, nat>, walks: map<Node, seq<Node>>)
  {
    && WellFormed(g) && start < |g.neighbors|
    && visited == expanded + {start}
    && end !in expanded
    && (forall j :: 0 <= j < |pq| ==>
          WalkFromTo(g, NoExclusion, pq[j].entry.path, start, pq[j].entry.node) && pq[j].entry.node in gMap)
    && Realised(g, NoExclusion, start, gMap, walks)
    && (start in expanded || HasQueued(pq, start))
    && (forall w, x :: w in expanded && Step(g, NoExclusion, w, x) ==> x in visited || HasQueued(pq, x))
  }

  /**
   * aStar with a bound on the number of rounds. The seed priority of the
   * start is given apart from h, as it is computed differently. A route found
   * is a walk from `start` to `end`; an empty route means that none exists.
   */
  method AStar(g: Graph, start: Node, end: Node, h: Node -> nat, seed: nat, fuel: nat) returns (r: Outcome)
    requires WellFormed(g) && start < |g.neighbors| && end < |g.neighbors|
    ensures r.Done? && |r.path| > 0 ==> WalkFromTo(g, NoExclusion, r.path, start, end)
    ensures r.Done? && |r.path| == 0 ==> forall w :: !WalkFromTo(g, NoExclusion, w, start, end)
  {
    var pathQueue := [Queued(CurrentPath(start, [start]), seed)];
    var visitedSet := {start};
    var gMap: map<Node, nat> := map[start := 0];
    ghost var expanded: set<Node> := {};
    ghost var walks: map<Node, seq<Node>> := map[start := [start]];
    var rounds := fuel;
    assert HasQueued(pathQueue, start) by {
      assert pathQueue[0].entry.node == start;
    }
    while |pathQueue| > 0
      invariant SearchState(g, start, end, pathQueue, visitedSet, expanded, gMap, walks)
      decreases rounds
    {
      if rounds == 0 {
        return OutOfFuel;
      }
      rounds := rounds - 1;
      MinExists(pathQueue);
      var k: nat :| IsMinAt(pathQueue, k);
      ghost var pq := pathQueue;
      var currPath := pathQueue[k].entry;
      pathQueue := Without(pathQueue, k);
      var u := currPath.node;
      var gCurr := Get(gMap, u);
      if u == end {
        assert WalkFromTo(g, NoExclusion, pq[k].entry.path, start, u);
        return Done(currPath.path);
      }
      assert WalkFromTo(g, NoExclusion, pq[k].entry.path, start, u) && u in gMap;
      ghost var visitedBefore, gBefore, walksBefore := visitedSet, gMap, walks;
      visitedSet := visitedSet + {u};
      pathQueue, gMap := ExpandNeighbours(g, h, currPath, gCurr, visitedSet, gMap, pathQueue);
      walks := RoundKeepsState(g, h, start, end, pq, k, visitedBefore, expanded, gBefore, walksBefore);
      expanded := expanded + {u};
    }
    forall w | WalkFromTo(g, NoExclusion, w, start, end)
      ensures false
    {
      ClosedWalk(g, NoExclusion, expanded, w);
    }
    return Done([]);
  }

  /**
   * One round that dequeues entry k, whose node u is not `end`, marks u
   * visited and expands it keeps the loop's state with u expanded.
   */
  lemma RoundKeepsState(g: Graph, h: Node -> nat, start: Node, end: Node, pq: seq<Queued>, k: nat,
                        visited: set<Node>, expanded: set<Node>, gMap: map<Node, nat>, walks: map<Node, seq<Node>>)
    returns (walks': map<Node, seq<Node>>)
    requires k < |pq| && pq[k].entry.node != end && pq[k].entry.node < |g.neighbors|
    requires SearchState(g, start, end, pq, visited, expanded, gMap, walks)
    ensures var e := pq[k].entry;
      var r := Expansion(g, h, e.node, e.path, Get(gMap, e.node), visited + {e.node}, g.neighbors[e.node], gMap);
      SearchState(g, start, end, Without(pq, k) + r.0, visited + {e.node}, expanded + {e.node}, r.1, walks')
  {
    var e := pq[k].entry;
    var u := e.node;
    var ns := g.neighbors[u];
    var visited' := visited + {u};
    var r := Expansion(g, h, u, e.path, Get(gMap, u), visited', ns, gMap);
    var rest := Without(pq, k);
    var pq' := rest + r.0;
    assert u in gMap && WalkFromTo(g, NoExclusion, e.path, start, u);
    walks' := ExpansionRealised(g, h, start, u, e.path, gMap[u], visited', ns, gMap, walks, walks[u]);
    ExpansionEntries(g, h, u, e.path, gMap[u], visited', ns, gMap);
    ExpansionCovers(g, h, u, e.path, gMap[u], visited', ns, gMap);
    EntriesKept(g, start, pq, k, gMap, r.0, r.1);
    QueuedKept(pq, k, r.0, start);
    forall w, x | w in expanded + {u} && Step(g, NoExclusion, w, x)
      ensures x in visited' || HasQueued(pq', x)
    {
      QueuedKept(pq, k, r.0, x);
    }
  }

  /**
   * After a round every queued route is still a walk from the start to its
   * node, and every queued node has a recorded cost.
   */
  lemma EntriesKept(g: Graph, start: Node, pq: seq<Queued>, k: nat, gMap: map<Node, nat>,
                    added: seq<Queued>, gMap': map<Node, nat>)
    requires WellFormed(g) && k < |pq| && pq[k].entry.node < |g.neighbors| && gMap.Keys <= gMap'.Keys
    requires forall j :: 0 <= j < |pq| ==>
      WalkFromTo(g, NoExclusion, pq[j].entry.path, start, pq[j].entry.node) && pq[j].entry.node in gMap
    requires var e := pq[k].entry;
      forall i :: 0 <= i < |added| ==>
        var v := added[i].entry.node;
        v in g.neighbors[e.node] && v in gMap' && added[i].entry.path == e.path + [v]
    ensures forall j :: 0 <= j < |Without(pq, k) + added| ==>
      var q := (Without(pq, k) + added)[j];
      WalkFromTo(g, NoExclusion, q.entry.path, start, q.entry.node) && q.entry.node in gMap'
  {
    var e := pq[k].entry;
    var rest := Without(pq, k);
    var pq' := rest + added;
    forall j | 0 <= j < |pq'|
      ensures WalkFromTo(g, NoExclusion, pq'[j].entry.path, start, pq'[j].entry.node) && pq'[j].entry.node in gMap'
    {
      if j < |rest| {
        var i := if j < k then j else j + 1;
        assert pq'[j] == pq[i];
      } else {
        assert pq'[j] == added[j - |rest|];
        WalkSnoc(g, NoExclusion, e.path, pq'[j].entry.node);
      }
    }
  }

  /** An entry for x other than the dequeued one is still queued after the round. */
  lemma QueuedKept(pq: seq<Queued>, k: nat, added: seq<Queued>, x: Node)
    requires k < |pq|
    ensures HasQueued(pq, x) && x != pq[k].entry.node ==> HasQueued(Without(pq, k) + added, x)
    ensures HasQueued(added, x) ==> HasQueued(Without(pq, k) + added, x)
  {
    var rest := Without(pq, k);
    if HasQueued(pq, x) && x != pq[k].entry.node {
      var j :| 0 <= j < |pq| && pq[j].entry.node == x;
      var i := if j < k then j else j - 1;
      assert (rest + added)[i] == pq[j];
    }
    if HasQueued(added, x) {
      var j :| 0 <= j < |added| && added[j].entry.node == x;
      assert (rest + added)[|rest| + j] == added[j];
    }
  }
}
