/**
 * What the four route searches share: the frontier entry (a node with the
 * route that reached it), the cost maps keyed by node, the neighbours a search
 * may still extend a route to, and the measure that shrinks on every round of
 * a search loop.
 */
module Frontier {
  import opened RoadGraph
  import opened Sequences

  /** A frontier entry: the node reached and the route from the start to it. */
  datatype CurrentPath = CurrentPath(node: Node, path: seq<Node>)

  /** An entry of a priority queue, with the priority it was enqueued with. */
  datatype Queued = Queued(entry: CurrentPath, priority: nat)

  /** `HashMap::get`: the recorded value, or 0 for a key never recorded. */
  function Get(m: map<Node, nat>, k: Node): (v: nat)
    ensures k in m ==> v == m[k]
    ensures k !in m ==> v == 0
  {
    if k in m then m[k] else 0
  }

  /**
   * Every recorded cost is the cost of some walk from `start` to its node:
   * `walks` holds one such walk per recorded node.
   */
  ghost predicate Realised(g: Graph, ex: Exclusion, start: Node, costs: map<Node, nat>, walks: map<Node, seq<Node>>)
  {
    forall v :: v in costs ==>
      && v in walks
      && WalkFromTo(g, ex, walks[v], start, v)
      && PathCost(g, walks[v]) == costs[v]
  }

  /** Recording the cost of a walk w to u extended by the step u -> v keeps every cost realised. */
  lemma RealisedExtend(g: Graph, ex: Exclusion, start: Node, costs: map<Node, nat>, walks: map<Node, seq<Node>>,
                       w: seq<Node>, u: Node, v: Node)
    requires Realised(g, ex, start, costs, walks)
    requires WalkFromTo(g, ex, w, start, u) && Step(g, ex, u, v) && v < |g.neighbors|
    ensures Realised(g, ex, start, costs[v := g.cost(u, v) + PathCost(g, w)], walks[v := w + [v]])
  {
    WalkSnoc(g, ex, w, v);
  }

  /**
   * The entry is a walk from `start` to its node without repeated nodes, and
   * every node on it before the last has been visited.
   */
  ghost predicate Tracked(g: Graph, ex: Exclusion, start: Node, visited: set<Node>, e: CurrentPath)
  {
    && WalkFromTo(g, ex, e.path, start, e.node)
    && Distinct(e.path)
    && (forall i :: 0 <= i < |e.path| - 1 ==> e.path[i] in visited)
  }

  /** Extending a tracked entry by a step to an unvisited node gives a tracked entry once its node is visited. */
  lemma TrackedExtend(g: Graph, ex: Exclusion, start: Node, visited: set<Node>, e: CurrentPath, v: Node)
    requires Valid(g) && Tracked(g, ex, start, visited, e)
    requires Step(g, ex, e.node, v) && v !in visited
    ensures Tracked(g, ex, start, visited + {e.node}, CurrentPath(v, e.path + [v]))
  {
    var p := e.path + [v];
    assert p[..|p| - 1] == e.path;
    assert forall i :: 0 <= i < |e.path| ==> p[i] == e.path[i];
  }

  /** A tracked route has at most as many nodes as the graph. */
  lemma TrackedBounded(g: Graph, ex: Exclusion, start: Node, visited: set<Node>, e: CurrentPath)
    requires Tracked(g, ex, start, visited, e)
    ensures |e.path| <= |g.neighbors|
  {
    DistinctBounded(e.path, |g.neighbors|);
  }

  /**
   * The neighbours in `ns` a search extends a route at u to, in order: those
   * not yet visited, over an edge that is not excluded.
   */
  function Open(g: Graph, ex: Exclusion, u: Node, ns: seq<Node>, visited: set<Node>): (r: seq<Node>)
    ensures |r| <= |ns|
    ensures forall v :: v in r <==> v in ns && v !in visited && Allowed(g, ex, u, v)
  {
    if |ns| == 0 then []
    else
      var v := ns[|ns| - 1];
      var r := Open(g, ex, u, ns[..|ns| - 1], visited);
      assert ns == ns[..|ns| - 1] + [v];
      if v !in visited && Allowed(g, ex, u, v) then r + [v] else r
  }

  /** One more neighbour: Open over one more element of `ns` adds that element when it is open. */
  lemma OpenSnoc(g: Graph, ex: Exclusion, u: Node, ns: seq<Node>, j: nat, visited: set<Node>)
    requires j < |ns|
    ensures Open(g, ex, u, ns[..j + 1], visited)
         == if ns[j] !in visited && Allowed(g, ex, u, ns[j]) then Open(g, ex, u, ns[..j], visited) + [ns[j]]
            else Open(g, ex, u, ns[..j], visited)
  {
    assert ns[..j + 1][..j] == ns[..j];
  }

  /** Extending by one more node adds its entry at the end. */
  lemma ExtensionsSnoc(p: seq<Node>, vs: seq<Node>, v: Node)
    ensures Extensions(p, vs + [v]) == Extensions(p, vs) + [CurrentPath(v, p + [v])]
  {
    assert (vs + [v])[..|vs|] == vs;
  }

  lemma PathsSnoc(a: seq<CurrentPath>, b: seq<CurrentPath>, x: CurrentPath)
    ensures (a + b) + [x] == a + (b + [x])
  {
  }

  /** The entries that extend route `p` by each node of `vs`, in order. */
  function Extensions(p: seq<Node>, vs: seq<Node>): (r: seq<CurrentPath>)
    ensures |r| == |vs|
    ensures forall j :: 0 <= j < |vs| ==> r[j] == CurrentPath(vs[j], p + [vs[j]])
  {
    if |vs| == 0 then [] else Extensions(p, vs[..|vs| - 1]) + [CurrentPath(vs[|vs| - 1], p + [vs[|vs| - 1]])]
  }

  /** The frontier entries of priority-queue entries, in order. */
  function EntriesOf(pq: seq<Queued>): (r: seq<CurrentPath>)
    ensures |r| == |pq|
    ensures forall j :: 0 <= j < |pq| ==> r[j] == pq[j].entry
  {
    if |pq| == 0 then [] else EntriesOf(pq[..|pq| - 1]) + [pq[|pq| - 1].entry]
  }

  /** The queue holds an entry for node x. */
  ghost predicate HasQueued(pq: seq<Queued>, x: Node)
  {
    exists j :: 0 <= j < |pq| && pq[j].entry.node == x
  }

  /** `pq[k]` has the smallest priority: the entry `dequeue` may hand out. */
  predicate IsMinAt(pq: seq<Queued>, k: nat)
  {
    k < |pq| && forall j :: 0 <= j < |pq| ==> pq[k].priority <= pq[j].priority
  }

  /** A non-empty priority queue has an entry of smallest priority. */
  lemma {:induction false} MinExists(pq: seq<Queued>)
    requires |pq| > 0
    ensures exists k: nat :: IsMinAt(pq, k)
    decreases |pq|
  {
    if |pq| > 1 {
      MinExists(pq[1..]);
      var k: nat :| IsMinAt(pq[1..], k);
      if pq[0].priority <= pq[k + 1].priority {
        assert IsMinAt(pq, 0);
      } else {
        assert IsMinAt(pq, k + 1);
      }
    } else {
      assert IsMinAt(pq, 0);
    }
  }

  // The measure of a search loop. A route in the frontier never has more than
  // n nodes; an entry with a route of m nodes weighs b^(n - m), where b exceeds
  // every node's number of neighbours, so the entries an expansion adds weigh
  // less together than the entry it removed.

  function Pow(b: nat, e: nat): (r: nat)
    ensures b > 0 ==> r > 0
  {
    if e == 0 then 1 else b * Pow(b, e - 1)
  }

  function PathWeight(n: nat, b: nat, p: seq<Node>): nat
  {
    if |p| <= n then Pow(b, n - |p|) else 0
  }

  function QueueWeight(n: nat, b: nat, q: seq<CurrentPath>): nat
  {
    if |q| == 0 then 0 else QueueWeight(n, b, q[..|q| - 1]) + PathWeight(n, b, q[|q| - 1].path)
  }

  function PqWeight(n: nat, b: nat, pq: seq<Queued>): nat
  {
    if |pq| == 0 then 0 else PqWeight(n, b, pq[..|pq| - 1]) + PathWeight(n, b, pq[|pq| - 1].entry.path)
  }

  lemma {:induction false} QueueWeightAppend(n: nat, b: nat, q: seq<CurrentPath>, r: seq<CurrentPath>)
    ensures QueueWeight(n, b, q + r) == QueueWeight(n, b, q) + QueueWeight(n, b, r)
    decreases |r|
  {
    if |r| > 0 {
      QueueWeightAppend(n, b, q, r[..|r| - 1]);
      assert (q + r)[..|q + r| - 1] == q + r[..|r| - 1];
    } else {
      assert q + r == q;
    }
  }

  lemma {:induction false} PqWeightAppend(n: nat, b: nat, pq: seq<Queued>, r: seq<Queued>)
    ensures PqWeight(n, b, pq + r) == PqWeight(n, b, pq) + PqWeight(n, b, r)
    decreases |r|
  {
    if |r| > 0 {
      PqWeightAppend(n, b, pq, r[..|r| - 1]);
      assert (pq + r)[..|pq + r| - 1] == pq + r[..|r| - 1];
    } else {
      assert pq + r == pq;
    }
  }

  /** Fewer than b entries, each one node longer than p, weigh less than an entry with route p. */
  lemma {:induction false} QueueExtensionsLighter(n: nat, b: nat, p: seq<Node>, added: seq<CurrentPath>)
    requires |added| < b && |p| <= n && (|added| > 0 ==> |p| < n)
    requires forall j :: 0 <= j < |added| ==> |added[j].path| == |p| + 1
    ensures QueueWeight(n, b, added) < PathWeight(n, b, p)
  {
    if |added| > 0 {
      assert |added[0].path| == |p| + 1;
      QueueUniform(n, b, |p| + 1, added);
      LessThanBase(|added|, b, n - |p| - 1);
    }
  }

  /** The priority-queue counterpart of QueueExtensionsLighter. */
  lemma {:induction false} PqExtensionsLighter(n: nat, b: nat, p: seq<Node>, added: seq<Queued>)
    requires |added| < b && |p| <= n && (|added| > 0 ==> |p| < n)
    requires forall j :: 0 <= j < |added| ==> |added[j].entry.path| == |p| + 1
    ensures PqWeight(n, b, added) < PathWeight(n, b, p)
  {
    if |added| > 0 {
      assert |added[0].entry.path| == |p| + 1;
      PqUniform(n, b, |p| + 1, added);
      LessThanBase(|added|, b, n - |p| - 1);
    }
  }

  lemma {:induction false} QueueUniform(n: nat, b: nat, m: nat, q: seq<CurrentPath>)
    requires m <= n && forall j :: 0 <= j < |q| ==> |q[j].path| == m
    ensures QueueWeight(n, b, q) == |q| * Pow(b, n - m)
    decreases |q|
  {
    if |q| > 0 {
      QueueUniform(n, b, m, q[..|q| - 1]);
    }
  }

  lemma {:induction false} PqUniform(n: nat, b: nat, m: nat, pq: seq<Queued>)
    requires m <= n && forall j :: 0 <= j < |pq| ==> |pq[j].entry.path| == m
    ensures PqWeight(n, b, pq) == |pq| * Pow(b, n - m)
    decreases |pq|
  {
    if |pq| > 0 {
      PqUniform(n, b, m, pq[..|pq| - 1]);
    }
  }

  lemma LessThanBase(k: nat, b: nat, e: nat)
    requires k < b
    ensures k * Pow(b, e) < Pow(b, e + 1)
  {
    assert Pow(b, e + 1) == b * Pow(b, e);
    assert (b - k) * Pow(b, e) > 0;
  }
}
