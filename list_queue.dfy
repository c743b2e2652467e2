/**
 * LinkedListPatientQueue: a singly linked list kept sorted by priority. A new
 * patient goes behind every patient whose priority is not greater, so equal
 * priorities leave in arrival order and the front node is always served next.
 */
module ListQueue {
  import opened PatientText

  /** Priorities never decrease from one node to the next. */
  ghost predicate Sorted(c: seq<Patient>)
    decreases |c|
  {
    |c| < 2 || (c[0].priority <= c[1].priority && Sorted(c[1..]))
  }

  /** Priorities never decrease from front to back, pair by pair. */
  ghost predicate Ordered(c: seq<Patient>)
  {
    forall i, j :: 0 <= i < j < |c| ==> c[i].priority <= c[j].priority
  }

  /** Sorted neighbour by neighbour is the same as sorted pair by pair. */
  lemma {:induction false} SortedOrdered(c: seq<Patient>)
    ensures Sorted(c) <==> Ordered(c)
    decreases |c|
  {
    if |c| >= 2 {
      SortedOrdered(c[1..]);
      if Sorted(c) {
        forall i, j | 0 <= i < j < |c|
          ensures c[i].priority <= c[j].priority
        {
          if 0 < i {
            assert c[1..][i - 1].priority <= c[1..][j - 1].priority;
          } else if 1 < j {
            assert c[1..][0].priority <= c[1..][j - 1].priority;
          }
        }
      }
      if Ordered(c) {
        forall i, j | 0 <= i < j < |c[1..]|
          ensures c[1..][i].priority <= c[1..][j].priority
        {
          assert c[i + 1].priority <= c[j + 1].priority;
        }
      }
    }
  }

  /** The first position at or after `k` whose priority exceeds `p`, or |c| if none does. */
  function AbovePos(c: seq<Patient>, p: int, k: nat): (r: nat)
    requires k <= |c|
    ensures k <= r <= |c|
    ensures forall j :: k <= j < r ==> c[j].priority <= p
    ensures r < |c| ==> p < c[r].priority
    decreases |c| - k
  {
    if k == |c| || p < c[k].priority then k else AbovePos(c, p, k + 1)
  }

  /**
   * Where a node of priority `p` is linked: at the front when the list is
   * empty or `p` beats the front, otherwise after the last of the leading
   * nodes whose priority does not exceed `p`.
   */
  function InsertPos(c: seq<Patient>, p: int): (k: nat)
    ensures k <= |c|
    ensures forall j :: 0 <= j < k ==> c[j].priority <= p
    ensures k < |c| ==> p < c[k].priority
  {
    if |c| == 0 || p < c[0].priority then 0 else AbovePos(c, p, 1)
  }

  /** `c` with `x` linked in at its place. */
  function Inserted(c: seq<Patient>, x: Patient): seq<Patient>
  {
    var k := InsertPos(c, x.priority);
    c[..k] + [x] + c[k..]
  }

  /** `c` without position k. */
  function Removed(c: seq<Patient>, k: nat): seq<Patient>
    requires k < |c|
  {
    c[..k] + c[k + 1..]
  }

  /** The first position at or after `from` holding `name`, or -1. */
  function FirstNamed(c: seq<Patient>, name: string, from: nat): (k: int)
    requires from <= |c|
    ensures k == -1 <==> forall j :: from <= j < |c| ==> c[j].name != name
    ensures k != -1 ==> from <= k < |c| && c[k].name == name
    ensures k != -1 ==> forall j :: from <= j < k ==> c[j].name != name
    decreases |c| - from
  {
    if from == |c| then -1
    else if c[from].name == name then from
    else FirstNamed(c, name, from + 1)
  }

  /**
   * The queue `upgradePatient` leaves behind: the first patient with the name
   * gets the new priority, in place at the front or relinked at its new place
   * further back.
   */
  function Upgraded(c: seq<Patient>, name: string, newPriority: int): (r: Outcome<seq<Patient>>)
    ensures r.Ok? ==> |r.value| == |c|
  {
    var k := FirstNamed(c, name, 0);
    if k == -1 then Throws(NoSuchPatient)
    else if c[k].priority <= newPriority then Throws(NotMoreUrgent)
    else if k == 0 then Ok(c[0 := Patient(name, newPriority)])
    else Ok(Inserted(Removed(c, k), Patient(name, newPriority)))
  }

  /** For a sorted list the insertion point is the only position that keeps it sorted with `p` there. */
  lemma InsertPosUnique(c: seq<Patient>, p: int, k: nat)
    requires Sorted(c) && k <= |c|
    requires forall j :: 0 <= j < k ==> c[j].priority <= p
    requires k < |c| ==> p < c[k].priority
    ensures k == InsertPos(c, p)
  {
    SortedOrdered(c);
  }

  /** Linking a patient in keeps the list sorted and adds exactly that patient. */
  lemma InsertedSorted(c: seq<Patient>, x: Patient)
    requires Sorted(c)
    ensures Sorted(Inserted(c, x))
    ensures multiset(Inserted(c, x)) == multiset(c) + multiset{x}
    ensures |Inserted(c, x)| == |c| + 1
  {
    SortedOrdered(c);
    InsertedKeepsOrder(c, x);
    SortedOrdered(Inserted(c, x));
    var k := InsertPos(c, x.priority);
    assert c == c[..k] + c[k..];
  }

  lemma InsertedKeepsOrder(c: seq<Patient>, x: Patient)
    requires Ordered(c)
    ensures Ordered(Inserted(c, x))
  {
    var k := InsertPos(c, x.priority);
    InsertedAt(c, x);
    var d := Inserted(c, x);
    forall i, j | 0 <= i < j < |d|
      ensures d[i].priority <= d[j].priority
    {
      var ci := if i < k then c[i] else if i == k then x else c[i - 1];
      var cj := if j < k then c[j] else if j == k then x else c[j - 1];
      assert d[i] == ci && d[j] == cj;
      if j == k {
        assert ci == c[i];
      } else if i == k {
        assert cj == c[j - 1] && c[k].priority <= c[j - 1].priority;
      } else if j < k {
        assert c[i].priority <= c[j].priority;
      } else if i < k {
        assert c[i].priority <= c[j - 1].priority;
      } else {
        assert c[i - 1].priority <= c[j - 1].priority;
      }
    }
  }

  /** Position by position, the inserted list is the old one with `x` at the insertion point. */
  lemma InsertedAt(c: seq<Patient>, x: Patient)
    ensures var k := InsertPos(c, x.priority); var d := Inserted(c, x);
      && |d| == |c| + 1 && d[k] == x
      && (forall i :: 0 <= i < k ==> d[i] == c[i])
      && (forall i :: k < i < |d| ==> d[i] == c[i - 1])
  {
  }

  /** Ties are served in arrival order: every patient of equal or better priority stays ahead of the new one. */
  lemma InsertedBehindEquals(c: seq<Patient>, x: Patient, j: nat)
    requires Sorted(c) && j < |c| && c[j].priority <= x.priority
    ensures j < InsertPos(c, x.priority)
    ensures Inserted(c, x)[j] == c[j]
  {
    SortedOrdered(c);
    var k := InsertPos(c, x.priority);
    assert forall i :: k <= i < |c| ==> x.priority < c[i].priority;
    InsertedAt(c, x);
  }

  /** Removing a position keeps the list sorted and removes exactly that patient. */
  lemma RemovedSorted(c: seq<Patient>, k: nat)
    requires Sorted(c) && k < |c|
    ensures Sorted(Removed(c, k))
    ensures multiset(Removed(c, k)) == multiset(c) - multiset{c[k]}
  {
    SortedOrdered(c);
    RemovedKeepsOrder(c, k);
    SortedOrdered(Removed(c, k));
    RemovedContents(c, k);
  }

  lemma RemovedContents(c: seq<Patient>, k: nat)
    requires k < |c|
    ensures multiset(Removed(c, k)) == multiset(c) - multiset{c[k]}
  {
    assert c == c[..k] + [c[k]] + c[k + 1..];
  }

  lemma RemovedKeepsOrder(c: seq<Patient>, k: nat)
    requires Ordered(c) && k < |c|
    ensures Ordered(Removed(c, k))
  {
    var d := Removed(c, k);
    assert c == c[..k] + [c[k]] + c[k + 1..];
    forall i, j | 0 <= i < j < |d|
      ensures d[i].priority <= d[j].priority
    {
      assert d[i] == if i < k then c[i] else c[i + 1];
      assert d[j] == if j < k then c[j] else c[j + 1];
    }
  }

  /** An upgrade keeps the list sorted and swaps the upgraded patient's entry for the new one. */
  lemma UpgradedSorted(c: seq<Patient>, name: string, newPriority: int)
    requires Sorted(c)
    requires Upgraded(c, name, newPriority).Ok?
    ensures var k := FirstNamed(c, name, 0);
      && Sorted(Upgraded(c, name, newPriority).value)
      && multiset(Upgraded(c, name, newPriority).value)
           == multiset(c) - multiset{c[k]} + multiset{Patient(name, newPriority)}
  {
    var k := FirstNamed(c, name, 0);
    var x := Patient(name, newPriority);
    if k == 0 {
      FrontLowered(c, newPriority, name);
      assert c == [c[0]] + c[1..];
    } else {
      RemovedSorted(c, k);
      InsertedSorted(Removed(c, k), x);
    }
  }

  /** Lowering the front priority keeps the list sorted. */
  lemma FrontLowered(c: seq<Patient>, p: int, name: string)
    requires Sorted(c) && |c| > 0 && p <= c[0].priority
    ensures Sorted(c[0 := Patient(name, p)])
  {
    var d := c[0 := Patient(name, p)];
    if |c| >= 2 {
      assert d[1..] == c[1..];
    }
  }

  class PatientNode {
    var name: string
    var priority: int
    var next: PatientNode?

    constructor (name: string, priority: int)
      ensures this.name == name && this.priority == priority && next == null
    {
      this.name := name;
      this.priority := priority;
      next := null;
    }
  }

  /** The node after position i: the next position's node, or null after the last. */
  function Succ(ns: seq<PatientNode>, i: int): PatientNode?
    requires 0 <= i < |ns|
  {
    if i + 1 < |ns| then ns[i + 1] else null
  }

  /** `n`'s next pointer is `m`. */
  ghost predicate LinksTo(n: PatientNode, m: PatientNode?)
    reads n`next
  {
    n.next == m
  }

  /** Each node links to the one after it, and the last one to null. */
  ghost predicate Linked(ns: seq<PatientNode>)
    reads ns`next
  {
    forall i :: 0 <= i < |ns| ==> LinksTo(ns[i], Succ(ns, i))
  }

  /** The nodes carry the patients of `c`, position by position. */
  ghost predicate Holds(ns: seq<PatientNode>, c: seq<Patient>)
    reads ns`name, ns`priority
  {
    |ns| == |c| && forall i :: 0 <= i < |ns| ==> ns[i].name == c[i].name && ns[i].priority == c[i].priority
  }

  /** No node occurs twice. */
  ghost predicate Distinct(ns: seq<PatientNode>)
  {
    forall i, j :: 0 <= i < j < |ns| ==> ns[i] != ns[j]
  }

  lemma DistinctInsert(ns: seq<PatientNode>, n: PatientNode, k: nat)
    requires Distinct(ns) && n !in ns && k <= |ns|
    ensures Distinct(ns[..k] + [n] + ns[k..])
  {
    var d := ns[..k] + [n] + ns[k..];
    forall i, j | 0 <= i < j < |d|
      ensures d[i] != d[j]
    {
      if i == k {
        assert d[j] == ns[j - 1];
      } else if j == k {
        assert d[i] == ns[i];
      } else {
        assert d[i] == ns[if i < k then i else i - 1];
        assert d[j] == ns[if j < k then j else j - 1];
      }
    }
  }

  lemma DistinctRemove(ns: seq<PatientNode>, k: nat)
    requires Distinct(ns) && k < |ns|
    ensures Distinct(ns[..k] + ns[k + 1..])
    ensures ns[k] !in ns[..k] + ns[k + 1..]
  {
    var d := ns[..k] + ns[k + 1..];
    forall i | 0 <= i < |d|
      ensures d[i] == ns[if i < k then i else i + 1]
    {
    }
  }

  lemma RemovedWithin(ns: seq<PatientNode>, k: nat)
    requires k < |ns|
    ensures forall n | n in ns[..k] + ns[k + 1..] :: n in ns
  {
    forall n | n in ns[..k] + ns[k + 1..]
      ensures n in ns
    {
      if n in ns[..k] {
        assert n in ns[..k] + ns[k..];
        assert ns[..k] + ns[k..] == ns;
      } else {
        assert n in ns[k + 1..];
        assert ns[..k + 1] + ns[k + 1..] == ns;
      }
    }
  }

  lemma HoldsInsert(ns: seq<PatientNode>, c: seq<Patient>, n: PatientNode, x: Patient, k: nat)
    requires Holds(ns, c) && n.name == x.name && n.priority == x.priority && k <= |ns|
    ensures Holds(ns[..k] + [n] + ns[k..], c[..k] + [x] + c[k..])
  {
    var d, e := ns[..k] + [n] + ns[k..], c[..k] + [x] + c[k..];
    forall i | 0 <= i < |d|
      ensures d[i].name == e[i].name && d[i].priority == e[i].priority
    {
      if i < k {
        assert d[i] == ns[i] && e[i] == c[i];
      } else if i > k {
        assert d[i] == ns[i - 1] && e[i] == c[i - 1];
      }
    }
  }

  lemma HoldsRemove(ns: seq<PatientNode>, c: seq<Patient>, k: nat)
    requires Holds(ns, c) && k < |ns|
    ensures Holds(ns[..k] + ns[k + 1..], Removed(c, k))
  {
    var d, e := ns[..k] + ns[k + 1..], Removed(c, k);
    forall i | 0 <= i < |d|
      ensures d[i].name == e[i].name && d[i].priority == e[i].priority
    {
      if i < k {
        assert d[i] == ns[i] && e[i] == c[i];
      } else {
        assert d[i] == ns[i + 1] && e[i] == c[i + 1];
      }
    }
  }

  /** Dropping the front node of a well-formed list leaves a well-formed list. */
  lemma DropFront(ns: seq<PatientNode>, c: seq<Patient>)
    requires Linked(ns) && Holds(ns, c) && Distinct(ns) && Sorted(c) && |ns| > 0
    ensures Linked(ns[1..]) && Holds(ns[1..], c[1..]) && Distinct(ns[1..]) && Sorted(c[1..])
    ensures ns[0].next == Succ(ns, 0)
  {
    assert LinksTo(ns[0], Succ(ns, 0));
    forall i | 0 <= i < |ns| - 1
      ensures LinksTo(ns[1..][i], Succ(ns[1..], i))
    {
      assert LinksTo(ns[i + 1], Succ(ns, i + 1));
    }
    DistinctRemove(ns, 0);
    HoldsRemove(ns, c, 0);
    assert ns[..0] + ns[1..] == ns[1..];
  }

  class LinkedListPatientQueue {
    var front: PatientNode?
    /** The nodes from `front` onwards, in list order. */
    ghost var nodes: seq<PatientNode>
    /** The patients those nodes hold. */
    ghost var Contents: seq<Patient>

    ghost predicate Valid()
      reads this, nodes
    {
      && (front == null <==> |nodes| == 0)
      && (|nodes| > 0 ==> front == nodes[0])
      && Linked(nodes)
      && Holds(nodes, Contents)
      && Distinct(nodes)
      && Sorted(Contents)
    }

    constructor ()
      ensures Valid() && Contents == []
    {
      front := null;
      nodes, Contents := [], [];
    }

    /** Unlinks nodes from the front until the list is empty. */
    method Clear()
      requires Valid()
      modifies this
      ensures Valid() && Contents == []
    {
      while front != null
        invariant Valid()
        decreases |nodes|
      {
        DropFront(nodes, Contents);
        front := front.next;
        nodes, Contents := nodes[1..], Contents[1..];
      }
    }

    method IsEmpty() returns (empty: bool)
      requires Valid()
      ensures empty <==> Contents == []
    {
      empty := front == null;
    }

    /** The front patient's name; no patient has a smaller priority. */
    method FrontName() returns (r: Outcome<string>)
      requires Valid()
      ensures Contents == [] ==> r == Throws(FrontNameEmpty)
      ensures Contents != [] ==> r == Ok(Contents[0].name)
      ensures Contents != [] ==> forall j :: 0 <= j < |Contents| ==> Contents[0].priority <= Contents[j].priority
    {
      if front == null {
        return Throws(FrontNameEmpty);
      }
      SortedOrdered(Contents);
      r := Ok(front.name);
    }

    /** The front patient's priority, the smallest in the queue. */
    method FrontPriority() returns (r: Outcome<int>)
      requires Valid()
      ensures Contents == [] ==> r == Throws(FrontPriorityEmpty)
      ensures Contents != [] ==> r == Ok(Contents[0].priority)
      ensures Contents != [] ==> forall j :: 0 <= j < |Contents| ==> r.value <= Contents[j].priority
    {
      if front == null {
        return Throws(FrontPriorityEmpty);
      }
      SortedOrdered(Contents);
      r := Ok(front.priority);
    }

    /** Links a new node for the patient in at its place. */
    method NewPatient(name: string, priority: int)
      requires Valid()
      modifies this, nodes
      ensures Valid()
      ensures Contents == Inserted(old(Contents), Patient(name, priority))
    {
      var node := new PatientNode(name, priority);
      Place(node, Patient(name, priority));
    }

    /** Unlinks the front node and returns its name. */
    method ProcessPatient() returns (r: Outcome<string>)
      requires Valid()
      modifies this
      ensures Valid()
      ensures old(Contents) == [] ==> r == Throws(ProcessEmpty) && Contents == []
      ensures old(Contents) != [] ==> r == Ok(old(Contents)[0].name) && Contents == old(Contents)[1..]
    {
      if front == null {
        return Throws(ProcessEmpty);
      }
      var name := front.name;
      DropFront(nodes, Contents);
      front := front.next;
      nodes, Contents := nodes[1..], Contents[1..];
      r := Ok(name);
    }

    /**
     * Gives the first patient with the name a more urgent priority: the front
     * node is changed in place, any other node is unlinked and linked in again
     * at its new place.
     */
    method UpgradePatient(name: string, newPriority: int) returns (r: Outcome<()>)
      requires Valid()
      modifies this, nodes
      ensures Valid()
      ensures Upgraded(old(Contents), name, newPriority).Throws? ==>
                r == Throws(Upgraded(old(Contents), name, newPriority).error) && Contents == old(Contents)
      ensures Upgraded(old(Contents), name, newPriority).Ok? ==>
                r == Ok(()) && Contents == Upgraded(old(Contents), name, newPriority).value
    {
      if front == null {
        return Throws(NoSuchPatient);
      }
      if front.name == name {
        if front.priority <= newPriority {
          return Throws(NotMoreUrgent);
        }
        SetFrontPriority(newPriority);
        return Ok(());
      }
      var found := FindBeforeName(name);
      if found == null {
        return Throws(NoSuchPatient);
      }
      ghost var c := Contents;
      ghost var k := FirstNamed(c, name, 1);
      assert FirstNamed(c, name, 0) == k;
      assert LinksTo(nodes[k - 1], Succ(nodes, k - 1));
      var toUpgrade := found.next;
      assert toUpgrade == nodes[k] && toUpgrade.name == name && toUpgrade.priority == c[k].priority;
      if toUpgrade.priority <= newPriority {
        return Throws(NotMoreUrgent);
      }
      Relink(found, toUpgrade, newPriority, k);
      assert Contents == Upgraded(c, name, newPriority).value;
      r := Ok(());
    }

    /**
     * Unlinks `node`, the node after `found` at position k, gives it the new
     * priority and links it in again at its place.
     */
    method Relink(found: PatientNode, node: PatientNode, newPriority: int, ghost k: nat)
      requires Valid() && 1 <= k < |nodes| && found == nodes[k - 1] && node == nodes[k]
      modifies this, node`priority, nodes`next
      ensures Valid()
      ensures Contents == Inserted(Removed(old(Contents), k), Patient(old(node.name), newPriority))
    {
      ghost var x := Patient(node.name, newPriority);
      Detach(found, node, newPriority, k);
      Place(node, x);
    }

    /** Unlinks `node`, at position k after `before`, and gives it the new priority. */
    method Detach(before: PatientNode, node: PatientNode, newPriority: int, ghost k: nat)
      requires Valid() && 1 <= k < |nodes| && before == nodes[k - 1] && node == nodes[k]
      modifies before`next, node`priority, this`nodes, this`Contents
      ensures Valid() && node !in nodes && front != null
      ensures node.name == old(node.name) && node.priority == newPriority
      ensures nodes == old(nodes[..k] + nodes[k + 1..]) && Contents == Removed(old(Contents), k)
      ensures forall n | n in nodes :: n in old(nodes)
    {
      Unlink(before, k);
      Retune(node, newPriority);
    }

    /** Gives a node outside the list a new priority; the list is untouched. */
    method Retune(node: PatientNode, newPriority: int)
      requires Valid() && node !in nodes
      modifies node`priority
      ensures Valid() && node.priority == newPriority
    {
      node.priority := newPriority;
    }

    /** The front node takes a smaller priority, in place; the list stays sorted. */
    method SetFrontPriority(newPriority: int)
      requires Valid() && front != null && newPriority < front.priority
      modifies front`priority, this`Contents
      ensures Valid()
      ensures Contents == old(Contents)[0 := Patient(old(Contents)[0].name, newPriority)]
    {
      front.priority := newPriority;
      Contents := Contents[0 := Patient(front.name, newPriority)];
      FrontLowered(old(Contents), newPriority, front.name);
    }

    /** Unlinks the node after `before`, which sits at position k - 1. */
    method Unlink(before: PatientNode, ghost k: nat)
      requires Valid() && 1 <= k < |nodes| && before == nodes[k - 1]
      modifies before`next, this`nodes, this`Contents
      ensures Valid()
      ensures nodes == old(nodes[..k] + nodes[k + 1..]) && Contents == Removed(old(Contents), k)
      ensures old(nodes[k]) !in nodes
      ensures forall n | n in nodes :: n in old(nodes)
    {
      ghost var ns, c := nodes, Contents;
      Bypass(before, k);
      assert Holds(nodes, Contents) by {
        HoldsRemove(ns, c, k);
      }
      assert Distinct(nodes) && ns[k] !in nodes by {
        DistinctRemove(ns, k);
      }
      assert Sorted(Contents) by {
        RemovedSorted(c, k);
      }
      RemovedWithin(ns, k);
    }

    /** Points `before`, at position k - 1, past the node at position k; the rest of the chain is unchanged. */
    method Bypass(before: PatientNode, ghost k: nat)
      requires Linked(nodes) && Distinct(nodes) && |Contents| == |nodes| && 1 <= k < |nodes| && before == nodes[k - 1]
      modifies before`next, this`nodes, this`Contents
      ensures nodes == old(nodes[..k] + nodes[k + 1..]) && Contents == Removed(old(Contents), k)
      ensures Linked(nodes)
    {
      ghost var ns := nodes;
      assert LinksTo(ns[k - 1], Succ(ns, k - 1)) && LinksTo(ns[k], Succ(ns, k));
      var node := before.next;
      before.next := node.next;
      nodes, Contents := ns[..k] + ns[k + 1..], Removed(Contents, k);
      forall i | 0 <= i < |nodes|
        ensures LinksTo(nodes[i], Succ(nodes, i))
      {
        if i < k - 1 {
          assert old(LinksTo(ns[i], Succ(ns, i)));
          assert nodes[i] == ns[i] && Succ(nodes, i) == Succ(ns, i);
        } else if i >= k {
          assert old(LinksTo(ns[i + 1], Succ(ns, i + 1)));
          assert nodes[i] == ns[i + 1] && Succ(nodes, i) == Succ(ns, i + 1);
        }
      }
    }

    /** Links `node` in at the place its priority calls for. */
    method Place(node: PatientNode, ghost x: Patient)
      requires Valid() && node !in nodes && x == Patient(node.name, node.priority)
      requires front == null ==> node.next == null
      modifies this, node`next, nodes`next
      ensures Valid()
      ensures Contents == Inserted(old(Contents), x)
    {
      ghost var c := Contents;
      if front == null {
        InsertedSorted(c, x);
        front := node;
        nodes, Contents := [node], [x];
        assert LinksTo(node, Succ(nodes, 0));
      } else if node.priority < front.priority {
        LinkFront(node);
      } else {
        var found := FindBeforePriority(node.priority);
        LinkAfter(found, node, AbovePos(c, node.priority, 1));
      }
    }

    /** Links `node` in before the front node, whose priority is greater. */
    method LinkFront(node: PatientNode)
      requires Valid() && node !in nodes && front != null && node.priority < front.priority
      modifies this, node`next
      ensures Valid()
      ensures Contents == Inserted(old(Contents), Patient(node.name, node.priority))
    {
      ghost var x := Patient(node.name, node.priority);
      ghost var ns, c := nodes, Contents;
      assert Sorted([x] + c) && [x] + c == Inserted(c, x) by {
        InsertedSorted(c, x);
      }
      Prepend(node, x);
      assert Holds(nodes, Contents) by {
        HoldsInsert(ns, c, node, x, 0);
        assert ns[..0] + [node] + ns[0..] == nodes && c[..0] + [x] + c[0..] == Contents;
      }
      assert Distinct(nodes) by {
        DistinctInsert(ns, node, 0);
        assert ns[..0] + [node] + ns[0..] == nodes;
      }
    }

    /** Links `node` in after `found`, which sits at position k - 1, its insertion point being k. */
    method LinkAfter(found: PatientNode, node: PatientNode, ghost k: nat)
      requires Valid() && node !in nodes
      requires 1 <= k <= |nodes| && found == nodes[k - 1]
      requires k == InsertPos(Contents, node.priority)
      modifies found`next, node`next, this`nodes, this`Contents
      ensures Valid()
      ensures Contents == Inserted(old(Contents), Patient(node.name, node.priority))
    {
      ghost var ns, c := nodes, Contents;
      ghost var x := Patient(node.name, node.priority);
      assert Sorted(c[..k] + [x] + c[k..]) && c[..k] + [x] + c[k..] == Inserted(c, x) by {
        InsertedSorted(c, x);
      }
      Splice(found, node, k, x);
      assert Holds(nodes, Contents) by {
        HoldsInsert(ns, c, node, x, k);
      }
      assert Distinct(nodes) by {
        DistinctInsert(ns, node, k);
      }
    }

    /** Links `node` in before the front node, as the new front. */
    method Prepend(node: PatientNode, ghost x: Patient)
      requires Linked(nodes) && node !in nodes
      requires (|nodes| > 0 ==> front == nodes[0]) && (front == null <==> |nodes| == 0)
      modifies node`next, this`front, this`nodes, this`Contents
      ensures nodes == [node] + old(nodes) && Contents == [x] + old(Contents)
      ensures front == node && Linked(nodes)
    {
      ghost var ns := nodes;
      node.next := front;
      front := node;
      nodes, Contents := [node] + ns, [x] + Contents;
      forall i | 0 < i < |nodes|
        ensures LinksTo(nodes[i], Succ(nodes, i))
      {
        assert old(LinksTo(ns[i - 1], Succ(ns, i - 1)));
        assert nodes[i] == ns[i - 1] && Succ(nodes, i) == Succ(ns, i - 1);
      }
      assert LinksTo(nodes[0], Succ(nodes, 0));
    }

    /** Links `node` in at position k, after `before`, the node at position k - 1. */
    method Splice(before: PatientNode, node: PatientNode, ghost k: nat, ghost x: Patient)
      requires Linked(nodes) && Distinct(nodes) && node !in nodes && 1 <= k <= |nodes| && k <= |Contents| && before == nodes[k - 1]
      modifies before`next, node`next, this`nodes, this`Contents
      ensures nodes == old(nodes[..k] + [node] + nodes[k..]) && Contents == old(Contents[..k] + [x] + Contents[k..])
      ensures Linked(nodes)
    {
      ghost var ns := nodes;
      assert LinksTo(before, Succ(ns, k - 1));
      node.next := before.next;
      before.next := node;
      nodes, Contents := ns[..k] + [node] + ns[k..], Contents[..k] + [x] + Contents[k..];
      forall i | 0 <= i < |nodes|
        ensures LinksTo(nodes[i], Succ(nodes, i))
      {
        if i < k - 1 {
          assert old(LinksTo(ns[i], Succ(ns, i)));
          assert nodes[i] == ns[i] && Succ(nodes, i) == Succ(ns, i);
        } else if i > k {
          assert old(LinksTo(ns[i - 1], Succ(ns, i - 1)));
          assert nodes[i] == ns[i - 1] && Succ(nodes, i) == Succ(ns, i - 1);
        }
      }
    }

    /**
     * The node before the first node after the front that holds `name`, or
     * null when no node after the front holds it.
     */
    method FindBeforeName(name: string) returns (found: PatientNode?)
      requires Valid() && front != null
      ensures var k := FirstNamed(Contents, name, 1);
        && (k == -1 ==> found == null)
        && (k != -1 ==> found == nodes[k - 1])
    {
      var curr := front;
      ghost var i := 0;
      while curr.next != null
        invariant 0 <= i < |nodes| && curr == nodes[i]
        invariant forall j :: 1 <= j <= i ==> Contents[j].name != name
        decreases |nodes| - i
      {
        assert LinksTo(nodes[i], Succ(nodes, i));
        if curr.next.name == name {
          return curr;
        }
        curr := curr.next;
        i := i + 1;
      }
      assert LinksTo(nodes[i], Succ(nodes, i));
      found := null;
    }

    /**
     * The node after which a node of the given priority is linked: the last
     * of the leading nodes whose priority does not exceed it.
     */
    method FindBeforePriority(priority: int) returns (found: PatientNode)
      requires Valid() && front != null
      ensures found == nodes[AbovePos(Contents, priority, 1) - 1]
    {
      var curr := front;
      ghost var i := 0;
      while curr.next != null
        invariant 0 <= i < |nodes| && curr == nodes[i]
        invariant AbovePos(Contents, priority, 1) == AbovePos(Contents, priority, i + 1)
        decreases |nodes| - i
      {
        assert LinksTo(nodes[i], Succ(nodes, i));
        if curr.next.priority > priority {
          break;
        }
        curr := curr.next;
        i := i + 1;
      }
      assert LinksTo(nodes[i], Succ(nodes, i));
      found := curr;
    }

    /** "{}" when empty, else "p:name" entries from front to back, comma separated, in braces. */
    method ToString() returns (s: string)
      requires Valid()
      ensures s == Braced(Entries(Contents, Text))
    {
      if front == null {
        return "{}";
      }
      var iter := front;
      s := "{" + IntToString(iter.priority) + ":" + iter.name;
      assert Entries(Contents[..1], Text) == [Text(Contents[0])];
      assert LinksTo(nodes[0], Succ(nodes, 0));
      iter := iter.next;
      ghost var i := 1;
      while iter != null
        invariant 1 <= i <= |nodes|
        invariant iter == if i < |nodes| then nodes[i] else null
        invariant s == "{" + Joined(Entries(Contents[..i], Text))
        decreases |nodes| - i
      {
        var e := IntToString(iter.priority) + ":" + iter.name;
        assert s + ", " + e == "{" + Joined(Entries(Contents[..i + 1], Text)) by {
          assert e == Text(Contents[i]);
          EntriesSnoc(Contents, Text, i);
          OpenTextStep(Entries(Contents[..i], Text), e);
        }
        s := s + ", " + e;
        assert LinksTo(nodes[i], Succ(nodes, i));
        iter := iter.next;
        i := i + 1;
      }
      assert Contents[..i] == Contents;
      s := s + "}";
    }
  }
}
