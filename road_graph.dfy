/**
 * The road graph the route searches run on. Nodes are the indices
 * 0 .. |neighbors| - 1; node u's neighbours are listed in `neighbors[u]`.
 * `cost(u, v)` is the cost of the edge u -> v and `edge(u, v)` is that edge's
 * identity (what `edgeBetween` returns), which alternativeRoute compares
 * against the edge it excludes.
 */
module RoadGraph {

  type Node = nat

  datatype Graph = Graph(neighbors: seq<seq<Node>>, cost: (Node, Node) -> nat, edge: (Node, Node) -> nat)

  /** The edge a search must not traverse, or none. */
  datatype Exclusion = NoExclusion | Excluded(id: nat)

  /** Every listed neighbour is a node of the graph. */
  ghost predicate WellFormed(g: Graph)
  {
    forall u, v :: 0 <= u < |g.neighbors| && v in g.neighbors[u] ==> v < |g.neighbors|
  }

  /** A well-formed graph in which no road leads from a node to itself. */
  ghost predicate Valid(g: Graph)
  {
    && WellFormed(g)
    && forall u, v :: 0 <= u < |g.neighbors| && v in g.neighbors[u] ==> v != u
  }

  /** A search may use the edge u -> v when the exclusion does not name it. */
  predicate Allowed(g: Graph, ex: Exclusion, u: Node, v: Node)
  {
    ex.Excluded? ==> g.edge(u, v) != ex.id
  }

  /** One move of a search: v is a neighbour of u over an allowed edge. */
  predicate Step(g: Graph, ex: Exclusion, u: Node, v: Node)
  {
    u < |g.neighbors| && v in g.neighbors[u] && Allowed(g, ex, u, v)
  }

  /** A non-empty sequence of nodes of the graph, each a step away from the one before. */
  ghost predicate IsWalk(g: Graph, ex: Exclusion, p: seq<Node>)
  {
    && |p| > 0
    && (forall i :: 0 <= i < |p| ==> p[i] < |g.neighbors|)
    && (forall i :: 0 < i < |p| ==> Step(g, ex, p[i - 1], p[i]))
  }

  ghost predicate WalkFromTo(g: Graph, ex: Exclusion, p: seq<Node>, s: Node, e: Node)
  {
    IsWalk(g, ex, p) && p[0] == s && p[|p| - 1] == e
  }

  /** A walk extended by one step is a walk, and its cost grows by that step's edge. */
  lemma WalkSnoc(g: Graph, ex: Exclusion, p: seq<Node>, v: Node)
    requires IsWalk(g, ex, p) && Step(g, ex, p[|p| - 1], v) && v < |g.neighbors|
    ensures IsWalk(g, ex, p + [v])
    ensures PathCost(g, p + [v]) == PathCost(g, p) + g.cost(p[|p| - 1], v)
  {
    var w := p + [v];
    assert PathCost(g, w) == PathCost(g, p) + g.cost(p[|p| - 1], v) by {
      assert w[..|w| - 1] == p;
    }
    forall i | 0 < i < |w|
      ensures Step(g, ex, w[i - 1], w[i])
    {
      if i < |p| {
        assert w[i - 1] == p[i - 1] && w[i] == p[i];
      }
    }
  }

  /** No node occurs twice. */
  predicate Distinct(p: seq<Node>)
  {
    forall i, j :: 0 <= i < j < |p| ==> p[i] != p[j]
  }

  /**
   * The cost `getCost` adds up: the edge costs of the consecutive pairs of the
   * path, accumulated from the front; 0 for a path of fewer than two nodes.
   */
  function PathCost(g: Graph, p: seq<Node>): (c: nat)
    ensures |p| < 2 ==> c == 0
    ensures |p| >= 2 ==> g.cost(p[0], p[1]) <= c
  {
    if |p| < 2 then 0 else PathCost(g, p[..|p| - 1]) + g.cost(p[|p| - 2], p[|p| - 1])
  }

  /** The cost of a path joined at a node is the cost of the two parts plus the joining edge. */
  lemma {:induction false} PathCostSplit(g: Graph, a: seq<Node>, b: seq<Node>)
    requires |a| > 0 && |b| > 0
    ensures PathCost(g, a + b) == PathCost(g, a) + g.cost(a[|a| - 1], b[0]) + PathCost(g, b)
    decreases |b|
  {
    if |b| == 1 {
      assert (a + b)[..|a + b| - 1] == a;
    } else {
      var c := b[..|b| - 1];
      PathCostSplit(g, a, c);
      assert (a + b)[..|a + b| - 1] == a + c;
      assert c[0] == b[0];
      if |c| >= 2 {
        assert c[..|c|] == c;
      }
    }
  }

  /** Every walk that starts inside a set closed under steps stays inside it. */
  lemma {:induction false} ClosedWalk(g: Graph, ex: Exclusion, closed: set<Node>, p: seq<Node>)
    requires IsWalk(g, ex, p) && p[0] in closed
    requires forall x, y :: x in closed && Step(g, ex, x, y) ==> y in closed
    ensures p[|p| - 1] in closed
    decreases |p|
  {
    if |p| > 1 {
      var q := p[..|p| - 1];
      assert forall i :: 0 <= i < |q| ==> q[i] == p[i];
      ClosedWalk(g, ex, closed, q);
      assert Step(g, ex, p[|p| - 2], p[|p| - 1]);
    }
  }

  /** A route without repeated nodes visits at most all `n` nodes. */
  lemma {:induction false} DistinctBounded(p: seq<Node>, n: nat)
    requires Distinct(p) && forall i :: 0 <= i < |p| ==> p[i] < n
    ensures |p| <= n
    decreases |p|
  {
    if |p| > 0 {
      var m := p[|p| - 1];
      var q := p[..|p| - 1];
      // rename n - 1 to m, which q does not contain, so that q fits below n - 1
      var r := seq(|q|, j requires 0 <= j < |q| => if q[j] == n - 1 then m else q[j]);
      assert forall j :: 0 <= j < |r| ==> r[j] < n - 1;
      DistinctBounded(r, n - 1);
    }
  }

  /** The largest number of neighbours any node has. */
  function MaxDegree(neighbors: seq<seq<Node>>): (d: nat)
    ensures forall u :: 0 <= u < |neighbors| ==> |neighbors[u]| <= d
  {
    if |neighbors| == 0 then 0
    else
      var d := MaxDegree(neighbors[..|neighbors| - 1]);
      var last := |neighbors[|neighbors| - 1]|;
      if last < d then d else last
  }
}
