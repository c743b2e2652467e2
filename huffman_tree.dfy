/**
 * Huffman coding, first half: the frequency table of the input bytes and the
 * encoding tree built from it by repeatedly merging the two lightest trees.
 * A tree pointer is a `Tree` value (`Nil` for the null pointer); the nodes
 * are never changed once built.
 */
module HuffmanTree {
  import opened Sequences

  newtype byte = b: int | 0 <= b < 256

  /** The character that marks the end of the data: one past the last byte value. */
  const PSEUDO_EOF: int := 256
  /** The character of an inner node, which stands for no character. */
  const NOT_A_CHAR: int := 257

  datatype Tree = Nil | Node(character: int, count: nat, zero: Tree, one: Tree)

  /** isLeaf: a node without children. Called on the null pointer, the source dereferences it. */
  predicate IsLeaf(t: Tree)
    requires t.Node?
    ensures IsLeaf(t) ==> Leaves(t) == [(t.character, t.count)]
    ensures WellBuilt(t) && !IsLeaf(t) ==> t.zero.Node? && t.one.Node? && t.character == NOT_A_CHAR
  {
    t.zero.Nil? && t.one.Nil?
  }

  /** The table buildFrequencyTable produces for `input`: every byte's number of occurrences, and PSEUDO_EOF once. */
  ghost predicate FrequencyTableOf(freqTable: map<int, nat>, input: seq<byte>)
  {
    && PSEUDO_EOF in freqTable && freqTable[PSEUDO_EOF] == 1
    && (forall k :: k in freqTable && k != PSEUDO_EOF ==> 0 <= k < 256)
    && (forall b: byte :: b as int in freqTable <==> b in multiset(input))
    && (forall b: byte :: b as int in freqTable ==> freqTable[b as int] == multiset(input)[b])
  }

  /** buildFrequencyTable: counts every byte of the input, then records PSEUDO_EOF once. */
  method BuildFrequencyTable(input: seq<byte>) returns (freqTable: map<int, nat>)
    ensures FrequencyTableOf(freqTable, input)
  {
    freqTable := map[];
    var i := 0;
    while i < |input|
      invariant 0 <= i <= |input|
      invariant forall k :: k in freqTable ==> 0 <= k < 256
      invariant forall b: byte :: b as int in freqTable <==> b in multiset(input[..i])
      invariant forall b: byte :: b as int in freqTable ==> freqTable[b as int] == multiset(input[..i])[b]
    {
      var key := input[i];
      assert input[..i + 1] == input[..i] + [key];
      var value := if key as int in freqTable then freqTable[key as int] else 0;
      freqTable := freqTable[key as int := value + 1];
      i := i + 1;
    }
    assert input[..i] == input;
    freqTable := freqTable[PSEUDO_EOF := 1];
  }

  /** The leaves of a tree as (character, count) pairs, zero side first. */
  function Leaves(t: Tree): seq<(int, nat)>
  {
    match t
    case Nil => []
    case Node(c, n, zero, one) => if zero.Nil? && one.Nil? then [(c, n)] else Leaves(zero) + Leaves(one)
  }

  /** The leaves of all trees of a queue, in queue order. */
  function Forest(pq: seq<Tree>): seq<(int, nat)>
  {
    if |pq| == 0 then [] else Forest(pq[..|pq| - 1]) + Leaves(pq[|pq| - 1])
  }

  /**
   * A tree as the merge loop builds it: every inner node has both children,
   * stands for no character and counts what its children count together.
   */
  predicate WellBuilt(t: Tree)
  {
    match t
    case Nil => true
    case Node(c, n, zero, one) =>
      (zero.Nil? && one.Nil?)
      || (zero.Node? && one.Node? && c == NOT_A_CHAR && n == zero.count + one.count && WellBuilt(zero) && WellBuilt(one))
  }

  /** Every queued tree is a node built as the merge loop builds trees. */
  predicate AllBuilt(pq: seq<Tree>)
  {
    forall j :: 0 <= j < |pq| ==> pq[j].Node? && WellBuilt(pq[j])
  }

  /** Each entry of the table is a leaf exactly once, and nothing else is. */
  ghost predicate LeavesMatch(leaves: seq<(int, nat)>, freqTable: map<int, nat>)
  {
    forall p: (int, nat) :: multiset(leaves)[p] == if p.0 in freqTable && p.1 == freqTable[p.0] then 1 else 0
  }

  /** What buildEncodingTree returns for a non-empty table. */
  ghost predicate EncodingTreeOf(root: Tree, freqTable: map<int, nat>)
  {
    root.Node? && WellBuilt(root) && LeavesMatch(Leaves(root), freqTable)
  }

  /** `pq[k]` has the smallest count: a tree the priority queue may hand out first. */
  predicate IsLightestAt(pq: seq<Tree>, k: nat)
  {
    k < |pq| && pq[k].Node? && forall j :: 0 <= j < |pq| && pq[j].Node? ==> pq[k].count <= pq[j].count
  }

  lemma {:induction false} LightestExists(pq: seq<Tree>)
    requires |pq| > 0 && forall j :: 0 <= j < |pq| ==> pq[j].Node?
    ensures exists k: nat :: IsLightestAt(pq, k)
    decreases |pq|
  {
    if |pq| > 1 {
      LightestExists(pq[1..]);
      var k: nat :| IsLightestAt(pq[1..], k);
      if pq[0].count <= pq[k + 1].count {
        assert IsLightestAt(pq, 0);
      } else {
        assert IsLightestAt(pq, k + 1);
      }
    } else {
      assert IsLightestAt(pq, 0);
    }
  }

  /**
   * buildEncodingTree: no tree for an empty table; otherwise one leaf per
   * table entry, then, while more than one tree is queued, the two with the
   * smallest counts (the first taken becomes the zero side) are merged under
   * a new inner node. The result has exactly the table's entries as leaves,
   * and its count is the sum of all counts.
   */
  method BuildEncodingTree(freqTable: map<int, nat>) returns (root: Tree)
    ensures root.Nil? <==> |freqTable| == 0
    ensures root.Node? ==> EncodingTreeOf(root, freqTable) && root.count == SumCounts(Leaves(root))
  {
    if |freqTable| == 0 {
      return Nil;
    }
    var pq := LeafQueue(freqTable);
    while |pq| > 1
      invariant |pq| > 0
      invariant AllBuilt(pq)
      invariant LeavesMatch(Forest(pq), freqTable)
      decreases |pq|
    {
      ghost var pq0 := pq;
      LightestExists(pq);
      var a: nat :| IsLightestAt(pq, a);
      var zero := pq[a];
      pq := Without(pq, a);
      LightestExists(pq);
      var b: nat :| IsLightestAt(pq, b);
      var one := pq[b];
      pq := Without(pq, b);
      var count := zero.count + one.count;
      var huffNode := Node(NOT_A_CHAR, count, zero, one);
      pq := pq + [huffNode];
      MergeKeepsLeaves(pq0, a, b, count);
      MergeKeepsBuilt(pq0, a, b, count);
    }
    root := pq[0];
    assert pq == [root];
    ForestSingle(root);
    CountIsTotal(root);
  }

  /** The leaves match the table's entries except those still `pending`. */
  ghost predicate LeavesMatchBut(leaves: seq<(int, nat)>, freqTable: map<int, nat>, pending: set<(int, nat)>)
  {
    forall p: (int, nat) ::
      multiset(leaves)[p] == if p.0 in freqTable && p !in pending && p.1 == freqTable[p.0] then 1 else 0
  }

  /** The loop over the table's entries: one leaf per entry, each entry once. */
  method LeafQueue(freqTable: map<int, nat>) returns (pq: seq<Tree>)
    ensures |pq| == |freqTable|
    ensures AllBuilt(pq)
    ensures LeavesMatch(Forest(pq), freqTable)
  {
    pq := [];
    var entries := freqTable.Items;
    while |entries| > 0
      invariant entries <= freqTable.Items && |pq| + |entries| == |freqTable|
      invariant AllBuilt(pq)
      invariant LeavesMatchBut(Forest(pq), freqTable, entries)
      decreases |entries|
    {
      var entry :| entry in entries;
      var huffNode := Node(entry.0, entry.1, Nil, Nil);
      LeafAdded(pq, freqTable, entries, entry);
      assert AllBuilt(pq + [huffNode]) by {
        assert forall j :: 0 <= j < |pq| ==> (pq + [huffNode])[j] == pq[j];
      }
      pq := pq + [huffNode];
      entries := entries - {entry};
    }
  }

  lemma LeafAdded(pq: seq<Tree>, freqTable: map<int, nat>, pending: set<(int, nat)>, entry: (int, nat))
    requires entry in pending && pending <= freqTable.Items
    requires LeavesMatchBut(Forest(pq), freqTable, pending)
    ensures LeavesMatchBut(Forest(pq + [Node(entry.0, entry.1, Nil, Nil)]), freqTable, pending - {entry})
  {
    var leaf := Node(entry.0, entry.1, Nil, Nil);
    assert entry.0 in freqTable && freqTable[entry.0] == entry.1;
    ForestAppend(pq, [leaf]);
    ForestSingle(leaf);
    assert Forest(pq + [leaf]) == Forest(pq) + [entry];
  }

  lemma {:induction false} ForestAppend(a: seq<Tree>, b: seq<Tree>)
    ensures Forest(a + b) == Forest(a) + Forest(b)
    decreases |b|
  {
    if |b| == 0 {
      assert a + b == a;
    } else {
      ForestAppend(a, b[..|b| - 1]);
      assert (a + b)[..|a + b| - 1] == a + b[..|b| - 1];
    }
  }

  lemma ForestSingle(t: Tree)
    ensures Forest([t]) == Leaves(t)
  {
    assert [t][..0] == [];
  }

  /** Taking a tree out of the queue takes exactly its leaves out of the forest. */
  lemma ForestWithout(pq: seq<Tree>, k: nat)
    requires k < |pq|
    ensures multiset(Forest(pq)) == multiset(Forest(Without(pq, k))) + multiset(Leaves(pq[k]))
  {
    var left, right := pq[..k], pq[k + 1..];
    SplitAround(pq, k);
    ForestAppend(left + [pq[k]], right);
    ForestAppend(left, [pq[k]]);
    ForestAppend(left, right);
    ForestSingle(pq[k]);
    var fl, fr, lk := Forest(left), Forest(right), Leaves(pq[k]);
    assert Forest(pq) == fl + lk + fr;
    assert Forest(Without(pq, k)) == fl + fr;
    assert multiset(fl + lk + fr) == multiset(fl) + multiset(lk) + multiset(fr);
    assert multiset(fl + fr) == multiset(fl) + multiset(fr);
  }

  /** Merging two queued trees under a new inner node keeps the leaves of the queue. */
  lemma MergeKeepsLeaves(pq: seq<Tree>, a: nat, b: nat, count: nat)
    requires a < |pq| && b < |pq| - 1 && pq[a].Node?
    ensures var rest := Without(pq, a);
      multiset(Forest(Without(rest, b) + [Node(NOT_A_CHAR, count, pq[a], rest[b])])) == multiset(Forest(pq))
  {
    ForestWithout(pq, a);
    var rest := Without(pq, a);
    ForestWithout(rest, b);
    var merged := Node(NOT_A_CHAR, count, pq[a], rest[b]);
    ForestAppend(Without(rest, b), [merged]);
    ForestSingle(merged);
    var la, lb, fr := Leaves(pq[a]), Leaves(rest[b]), Forest(Without(rest, b));
    assert Leaves(merged) == la + lb;
    assert multiset(Forest(pq)) == multiset(fr) + multiset(lb) + multiset(la);
    assert Forest(Without(rest, b) + [merged]) == fr + (la + lb);
    assert multiset(fr + (la + lb)) == multiset(fr) + multiset(la) + multiset(lb);
  }

  /** Merging the two trees taken out keeps every queued tree well built. */
  lemma MergeKeepsBuilt(pq: seq<Tree>, a: nat, b: nat, count: nat)
    requires AllBuilt(pq) && a < |pq| && b < |pq| - 1
    requires count == pq[a].count + Without(pq, a)[b].count
    ensures var rest := Without(pq, a);
      AllBuilt(Without(rest, b) + [Node(NOT_A_CHAR, count, pq[a], rest[b])])
  {
    var rest := Without(pq, a);
    assert AllBuilt(rest);
    assert AllBuilt(Without(rest, b));
  }

  function SumCounts(leaves: seq<(int, nat)>): int
  {
    if |leaves| == 0 then 0 else leaves[0].1 + SumCounts(leaves[1..])
  }

  lemma {:induction false} SumCountsAppend(a: seq<(int, nat)>, b: seq<(int, nat)>)
    ensures SumCounts(a + b) == SumCounts(a) + SumCounts(b)
    decreases |a|
  {
    if |a| > 0 {
      SumCountsAppend(a[1..], b);
      assert (a + b)[1..] == a[1..] + b;
    } else {
      assert a + b == b;
    }
  }

  /** A well-built tree counts what its leaves count together. */
  lemma {:induction false} CountIsTotal(t: Tree)
    requires t.Node? && WellBuilt(t)
    ensures t.count == SumCounts(Leaves(t))
  {
    if !(t.zero.Nil? && t.one.Nil?) {
      CountIsTotal(t.zero);
      CountIsTotal(t.one);
      SumCountsAppend(Leaves(t.zero), Leaves(t.one));
    }
  }
}
