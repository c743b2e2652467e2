/**
 * HeapPatientQueue: a binary min-heap stored 1-indexed in a growable array.
 * Slot i's parent is slot i / 2; the order is (priority, then name), and the
 * array doubles its capacity when `count` reaches it.
 */
module HeapQueue {
  import opened PatientText

  /** `compare`: `a` is more urgent than `b` (smaller priority, then smaller name). */
  predicate Precedes(a: Patient, b: Patient)
  {
    a.priority < b.priority || (a.priority == b.priority && NameLess(a.name, b.name))
  }

  lemma PrecedesIrreflexive(a: Patient)
    ensures !Precedes(a, a)
  {
    NameLessIrreflexive(a.name);
  }

  lemma PrecedesAsymmetric(a: Patient, b: Patient)
    requires Precedes(a, b)
    ensures !Precedes(b, a)
  {
    if a.priority == b.priority {
      NameLessAsymmetric(a.name, b.name);
    }
  }

  lemma PrecedesTransitive(a: Patient, b: Patient, c: Patient)
    requires Precedes(a, b) && Precedes(b, c)
    ensures Precedes(a, c)
  {
    if a.priority == b.priority == c.priority {
      NameLessTransitive(a.name, b.name, c.name);
    }
  }

  /** `compare` is total: of two different patients one is more urgent. */
  lemma PrecedesTotal(a: Patient, b: Patient)
    requires !Precedes(a, b)
    ensures Precedes(b, a) || a == b
  {
    if a.priority == b.priority && a.name != b.name {
      NameLessTotal(a.name, b.name);
    }
  }

  /** "Not more urgent than" is transitive. */
  lemma NotPrecedesTransitive(a: Patient, b: Patient, c: Patient)
    requires !Precedes(a, b) && !Precedes(b, c)
    ensures !Precedes(a, c)
  {
    PrecedesTotal(a, b);
    PrecedesTotal(b, c);
    if a != b && b != c {
      PrecedesTransitive(c, b, a);
      PrecedesAsymmetric(c, a);
    }
  }

  /** Slot i is not more urgent than its parent slot i / 2. */
  predicate ParentOk(a: seq<Patient>, i: int)
    requires 2 <= i < |a|
  {
    !Precedes(a[i], a[i / 2])
  }

  /** No slot 2..n is more urgent than its parent. */
  ghost predicate HeapOrdered(a: seq<Patient>, n: int)
  {
    forall i :: 2 <= i <= n && i < |a| ==> ParentOk(a, i)
  }

  /** Heap order except between slot c and its parent; c's parent is no worse than c's children. */
  ghost predicate HeapExceptUp(a: seq<Patient>, n: int, c: int)
  {
    && (forall i :: 2 <= i <= n && i < |a| && i != c ==> ParentOk(a, i))
    && (c >= 2 && c < |a| ==> forall i :: 2 <= i <= n && i < |a| && i / 2 == c ==> !Precedes(a[i], a[c / 2]))
  }

  /** Heap order except between slot p and its children; p's parent is no worse than p's children. */
  ghost predicate HeapExceptDown(a: seq<Patient>, n: int, p: int)
  {
    && (forall i :: 2 <= i <= n && i < |a| && i / 2 != p ==> ParentOk(a, i))
    && (p >= 2 && p < |a| ==> forall i :: 2 <= i <= n && i < |a| && i / 2 == p ==> !Precedes(a[i], a[p / 2]))
  }

  /** Slot j lies in the subtree rooted at slot p. */
  predicate InSubtree(p: int, j: int)
    decreases j
  {
    1 <= p <= j && (j == p || InSubtree(p, j / 2))
  }

  /** A subtree is its root plus the subtrees of its two children. */
  lemma {:induction false} SubtreeSplit(p: int, j: int)
    requires p >= 1
    ensures InSubtree(p, j) <==> j == p || InSubtree(2 * p, j) || InSubtree(2 * p + 1, j)
    decreases j
  {
    if j > p && j >= 2 {
      SubtreeSplit(p, j / 2);
      if j / 2 != p && InSubtree(p, j / 2) {
        assert InSubtree(2 * p, j / 2) || InSubtree(2 * p + 1, j / 2);
      }
    }
  }

  /** Every slot belongs to the subtree of the root. */
  lemma {:induction false} RootSubtree(j: int)
    requires j >= 1
    ensures InSubtree(1, j)
    decreases j
  {
    if j > 1 {
      RootSubtree(j / 2);
    }
  }

  /** In a heap nothing in a subtree is more urgent than the subtree's root. */
  lemma {:induction false} SubtreeMin(a: seq<Patient>, n: int, p: int, j: int)
    requires HeapOrdered(a, n) && n < |a|
    requires InSubtree(p, j) && j <= n
    ensures !Precedes(a[j], a[p])
    decreases j
  {
    if j == p {
      PrecedesIrreflexive(a[p]);
    } else {
      SubtreeMin(a, n, p, j / 2);
      assert ParentOk(a, j);
      NotPrecedesTransitive(a[j], a[j / 2], a[p]);
    }
  }

  /** The root of a heap is a most urgent element. */
  lemma HeapRootMin(a: seq<Patient>, n: int, j: int)
    requires HeapOrdered(a, n) && n < |a|
    requires 1 <= j <= n
    ensures !Precedes(a[j], a[1])
  {
    RootSubtree(j);
    SubtreeMin(a, n, 1, j);
  }

  /** One step of `moveUp`: swapping c with its parent moves the exception up to the parent. */
  lemma SiftUpStep(a: seq<Patient>, n: int, c: int)
    requires 2 <= c <= n < |a|
    requires HeapExceptUp(a, n, c)
    requires !Precedes(a[c / 2], a[c])
    ensures HeapExceptUp(a[c := a[c / 2]][c / 2 := a[c]], n, c / 2)
  {
    var p := c / 2;
    var b := a[c := a[p]][p := a[c]];
    forall i | 2 <= i <= n && i != p
      ensures ParentOk(b, i)
    {
      if i == c {
      } else if i / 2 == c {
      } else if i / 2 == p {
        assert ParentOk(a, i);
        NotPrecedesTransitive(a[i], a[p], a[c]);
      } else {
        assert ParentOk(a, i);
      }
    }
    if p >= 2 {
      assert ParentOk(a, p);
      forall i | 2 <= i <= n && i / 2 == p
        ensures !Precedes(b[i], b[p / 2])
      {
        if i != c {
          assert ParentOk(a, i);
          NotPrecedesTransitive(a[i], a[p], a[p / 2]);
        }
      }
    }
  }

  /**
   * One step of `moveDown`: when a child u of p is more urgent than p and than
   * its sibling, swapping p and u moves the exception down to u.
   */
  lemma SiftDownStep(a: seq<Patient>, n: int, p: int, u: int)
    requires 1 <= p && u / 2 == p && 2 <= u <= n < |a|
    requires HeapExceptDown(a, n, p)
    requires Precedes(a[u], a[p])
    requires forall s :: 2 <= s <= n && s / 2 == p && s != u ==> !Precedes(a[s], a[u])
    ensures HeapExceptDown(a[p := a[u]][u := a[p]], n, u)
  {
    var b := a[p := a[u]][u := a[p]];
    PrecedesAsymmetric(a[u], a[p]);
    forall i | 2 <= i <= n && i / 2 != u
      ensures ParentOk(b, i)
    {
      if i == u {
      } else if i / 2 == p {
      } else if i == p {
      } else {
        assert ParentOk(a, i);
      }
    }
    forall i | 2 <= i <= n && i / 2 == u
      ensures !Precedes(b[i], b[u / 2])
    {
      assert ParentOk(a, i);
    }
  }

  /** Giving slot c a more urgent value leaves the heap broken at most between c and its parent. */
  lemma ChildrenAfterUpgrade(a: seq<Patient>, n: int, c: int, x: Patient)
    requires HeapOrdered(a, n) && 1 <= c <= n < |a|
    requires Precedes(x, a[c])
    ensures HeapExceptUp(a[c := x], n, c)
  {
    var b := a[c := x];
    PrecedesAsymmetric(x, a[c]);
    forall i | 2 <= i <= n && i != c
      ensures ParentOk(b, i)
    {
      assert ParentOk(a, i);
      if i / 2 == c {
        NotPrecedesTransitive(a[i], a[c], x);
      }
    }
    if c >= 2 {
      assert ParentOk(a, c);
      forall i | 2 <= i <= n && i / 2 == c
        ensures !Precedes(b[i], b[c / 2])
      {
        assert ParentOk(a, i);
        NotPrecedesTransitive(a[i], a[c], a[c / 2]);
      }
    }
  }

  /**
   * Filling the new last slot n of a copy of a heap on slots 1..n-1 leaves the
   * heap broken at most between n and its parent, and adds one element.
   */
  lemma NewLastSlot(a: seq<Patient>, b: seq<Patient>, n: int)
    requires 1 <= n < |b| && HeapOrdered(a, n - 1)
    requires n - 1 > 0 ==> n - 1 < |a|
    requires forall i :: 1 <= i < n ==> i < |a| && b[i] == a[i]
    ensures HeapExceptUp(b, n, n)
    ensures multiset(b[1..n + 1]) ==
              multiset(if 0 < n - 1 < |a| then a[1..n] else []) + multiset{b[n]}
  {
    forall i | 2 <= i < n
      ensures ParentOk(b, i)
    {
      assert ParentOk(a, i);
    }
    assert b[1..n + 1] == (if 0 < n - 1 < |a| then a[1..n] else []) + [b[n]];
  }

  /** After moving the last slot n to the root, slots 1..n-1 are a heap except below the root. */
  lemma LastToRoot(a: seq<Patient>, n: int)
    requires HeapOrdered(a, n) && 1 <= n < |a|
    ensures HeapExceptDown(a[1 := a[n]][n := a[1]], n - 1, 1)
    ensures multiset(a[1 := a[n]][n := a[1]][1..n]) == multiset(a[1..n + 1]) - multiset{a[1]}
  {
    LastToRootContents(a, n);
    var b := a[1 := a[n]][n := a[1]];
    forall i | 2 <= i <= n - 1 && i / 2 != 1
      ensures ParentOk(b, i)
    {
      assert ParentOk(a, i);
    }
  }

  lemma LastToRootContents(a: seq<Patient>, n: int)
    requires 1 <= n < |a|
    ensures multiset(a[1 := a[n]][n := a[1]][1..n]) == multiset(a[1..n + 1]) - multiset{a[1]}
  {
    var b := a[1 := a[n]][n := a[1]];
    if n > 1 {
      var middle := a[2..n];
      assert a[1..n + 1] == [a[1]] + (middle + [a[n]]);
      assert b[1..n] == [a[n]] + middle;
      calc {
        multiset(a[1..n + 1]) - multiset{a[1]};
        multiset([a[1]] + (middle + [a[n]])) - multiset{a[1]};
        multiset(middle + [a[n]]);
        multiset([a[n]] + middle);
      }
    } else {
      assert a[1..n + 1] == [a[1]];
    }
  }

  /** Swapping two slots inside 1..n keeps the multiset of slots 1..n. */
  lemma SwapKeepsContents(a: seq<Patient>, i: int, j: int, n: int)
    requires 1 <= i <= n < |a| && 1 <= j <= n
    ensures multiset(a[i := a[j]][j := a[i]][1..n + 1]) == multiset(a[1..n + 1])
  {
    var b := a[i := a[j]][j := a[i]];
    assert b[1..n + 1] == a[1..n + 1][i - 1 := a[j]][j - 1 := a[i]];
  }

  /** Overwriting slot i inside 1..n replaces one element of the multiset. */
  lemma UpdateContents(a: seq<Patient>, i: int, x: Patient, n: int)
    requires 1 <= i <= n < |a|
    ensures multiset(a[i := x][1..n + 1]) == multiset(a[1..n + 1]) - multiset{a[i]} + multiset{x}
  {
    assert a[i := x][1..n + 1] == a[1..n + 1][i - 1 := x];
  }

  class HeapPatientQueue {
    var elements: array<Patient>
    var capacity: int
    var count: int

    /** Slots 1..count hold the heap; slot 0 is unused; count < capacity unless both are 0. */
    ghost predicate Valid()
      reads this, elements
    {
      && elements.Length == capacity
      && 0 <= count
      && (count < capacity || count == capacity == 0)
      && HeapOrdered(elements[..], count)
    }

    /** The patients in slots 1..count, in array order. */
    ghost function Items(): seq<Patient>
      reads this, elements
    {
      if 0 < count < elements.Length then elements[1..count + 1] else []
    }

    ghost function Contents(): multiset<Patient>
      reads this, elements
    {
      multiset(Items())
    }

    constructor ()
      ensures Valid() && count == 0 && capacity == 0 && Contents() == multiset{}
    {
      elements := new Patient[0];
      capacity, count := 0, 0;
    }

    /** Drops the array: count and capacity return to 0. */
    method Clear()
      modifies this
      ensures Valid() && count == 0 && capacity == 0 && Contents() == multiset{}
    {
      elements := new Patient[0];
      capacity, count := 0, 0;
    }

    /** True exactly when the queue holds no patient. */
    method IsEmpty() returns (empty: bool)
      requires Valid()
      ensures empty <==> Contents() == multiset{}
      ensures empty <==> count == 0
    {
      empty := count == 0;
      if count > 0 {
        assert Items()[0] in Contents();
      }
    }

    method FrontName() returns (r: Outcome<string>)
      requires Valid()
      ensures count == 0 ==> r == Throws(FrontNameEmpty)
      ensures count > 0 ==> r == Ok(elements[1].name)
      ensures count > 0 ==> forall j :: 1 <= j <= count ==> !Precedes(elements[j], elements[1])
    {
      if count == 0 {
        return Throws(FrontNameEmpty);
      }
      forall j | 1 <= j <= count
        ensures !Precedes(elements[j], elements[1])
      {
        HeapRootMin(elements[..], count, j);
      }
      r := Ok(elements[1].name);
    }

    method FrontPriority() returns (r: Outcome<int>)
      requires Valid()
      ensures count == 0 ==> r == Throws(FrontPriorityEmpty)
      ensures count > 0 ==> r == Ok(elements[1].priority)
      ensures count > 0 ==> forall j :: 1 <= j <= count ==> elements[1].priority <= elements[j].priority
    {
      if count == 0 {
        return Throws(FrontPriorityEmpty);
      }
      forall j | 1 <= j <= count
        ensures elements[1].priority <= elements[j].priority
      {
        HeapRootMin(elements[..], count, j);
      }
      r := Ok(elements[1].priority);
    }

    /** Adds a patient: grow the array when full, put it in the last slot, sift it up. */
    method NewPatient(name: string, priority: int)
      requires Valid()
      modifies this, elements
      ensures Valid() && count == old(count) + 1 && count < capacity
      ensures Contents() == old(Contents()) + multiset{Patient(name, priority)}
    {
      PutLast(Patient(name, priority));
      ghost var mid := Contents();
      MoveUp(count);
      assert Contents() == mid;
    }

    /** Puts a patient in a new last slot, growing the array when full; only the order above it may break. */
    method PutLast(p: Patient)
      requires Valid()
      modifies this, elements
      ensures count == old(count) + 1 && count < capacity && elements.Length == capacity
      ensures elements == old(elements) || fresh(elements)
      ensures HeapExceptUp(elements[..], count, count)
      ensures Contents() == old(Contents()) + multiset{p}
    {
      ghost var a := elements[..];
      ghost var before := Items();
      count := count + 1;
      if count >= capacity {
        Expand();
      }
      elements[count] := p;
      NewLastSlot(a, elements[..], count);
      assert Items() == elements[..][1..count + 1];
    }

    /** Removes the root: move the last slot to the root and sift it down. */
    method ProcessPatient() returns (r: Outcome<string>)
      requires Valid()
      modifies elements, this`count
      ensures Valid() && capacity == old(capacity)
      ensures old(count) == 0 ==> r == Throws(ProcessEmpty) && count == 0
      ensures old(count) > 0 ==>
        && r == Ok(old(elements[1]).name)
        && count == old(count) - 1
        && Contents() == old(Contents()) - multiset{old(elements[1])}
    {
      if count == 0 {
        return Throws(ProcessEmpty);
      }
      var name := elements[1].name;
      DetachRoot();
      ghost var mid := Contents();
      MoveDown(1);
      assert Contents() == mid;
      r := Ok(name);
    }

    /** Moves the last slot to the root and drops the old root; only the order below the root may break. */
    method DetachRoot()
      requires Valid() && count > 0
      modifies elements, this`count
      ensures count == old(count) - 1 && count < elements.Length && elements.Length == capacity
      ensures HeapExceptDown(elements[..], count, 1)
      ensures Contents() == old(Contents()) - multiset{old(elements[1])}
    {
      var n := count;
      ghost var a := elements[..];
      ghost var b := a[1 := a[n]][n := a[1]];
      assert Contents() == multiset(a[1..n + 1]) by {
        assert Items() == a[1..n + 1];
      }
      LastToRoot(a, n);
      elements[1], elements[n] := elements[n], elements[1];
      count := n - 1;
      assert elements[..] == b;
      assert Contents() == multiset(b[1..n]) by {
        assert Items() == b[1..n];
      }
    }

    /**
     * Gives the named patient (the most urgent slot holding that name) a more
     * urgent priority, then sifts it up.
     */
    method UpgradePatient(name: string, newPriority: int) returns (r: Outcome<()>)
      requires Valid()
      modifies elements
      ensures Valid()
      ensures var f := old(FindName(name, 1));
        && (f == 0 ==> r == Throws(NoSuchPatient) && elements[..] == old(elements[..]))
        && (f != 0 && old(elements[f]).priority <= newPriority ==>
              r == Throws(NotMoreUrgent) && elements[..] == old(elements[..]))
        && (f != 0 && old(elements[f]).priority > newPriority ==>
              && r == Ok(())
              && Contents() == old(Contents()) - multiset{old(elements[f])} + multiset{Patient(name, newPriority)})
    {
      var found := FindName(name, 1);
      if found == 0 {
        return Throws(NoSuchPatient);
      }
      if elements[found].priority <= newPriority {
        return Throws(NotMoreUrgent);
      }
      Raise(found, newPriority);
      r := Ok(());
    }

    /** Slot `found` takes a more urgent priority and is sifted up. */
    method Raise(found: int, newPriority: int)
      requires Valid() && 1 <= found <= count && newPriority < elements[found].priority
      modifies elements
      ensures Valid()
      ensures Contents() == old(Contents()) - multiset{old(elements[found])}
                            + multiset{Patient(old(elements[found]).name, newPriority)}
    {
      var upgraded := Patient(elements[found].name, newPriority);
      Overwrite(found, upgraded);
      ghost var mid := Contents();
      MoveUp(found);
      assert Contents() == mid;
    }

    /** Writes the upgraded patient into slot `found`; only the order above it may break. */
    method Overwrite(found: int, upgraded: Patient)
      requires Valid() && 1 <= found <= count && Precedes(upgraded, elements[found])
      modifies elements
      ensures count < elements.Length && elements.Length == capacity
      ensures HeapExceptUp(elements[..], count, found)
      ensures Contents() == old(Contents()) - multiset{old(elements[found])} + multiset{upgraded}
    {
      ghost var a := elements[..];
      ghost var b := a[found := upgraded];
      assert Contents() == multiset(a[1..count + 1]) by {
        assert Items() == a[1..count + 1];
      }
      assert HeapExceptUp(b, count, found) by {
        ChildrenAfterUpgrade(a, count, found, upgraded);
      }
      assert multiset(b[1..count + 1]) == multiset(a[1..count + 1]) - multiset{a[found]} + multiset{upgraded} by {
        UpdateContents(a, found, upgraded, count);
      }
      elements[found] := upgraded;
      assert elements[..] == b;
      assert Contents() == multiset(b[1..count + 1]) by {
        assert Items() == b[1..count + 1];
      }
    }

    /** "{}" when empty, else "p:name" for slots 1..count, comma separated, in braces. */
    method ToString() returns (s: string)
      requires Valid()
      ensures s == Braced(Entries(Items(), Text))
    {
      if count == 0 {
        return "{}";
      }
      ghost var items := Items();
      s := "{" + IntToString(elements[1].priority) + ":" + elements[1].name;
      assert Entries(items[..1], Text) == [Text(items[0])];
      var i := 2;
      while i <= count
        invariant 2 <= i <= count + 1
        invariant s == "{" + Joined(Entries(items[..i - 1], Text))
      {
        var e := IntToString(elements[i].priority) + ":" + elements[i].name;
        assert e == Text(items[i - 1]);
        EntriesSnoc(items, Text, i - 1);
        OpenTextStep(Entries(items[..i - 1], Text), e);
        s := s + ", " + e;
        i := i + 1;
      }
      assert items[..i - 1] == items;
      s := s + "}";
    }

    /** Grows the array: capacity 0 becomes 2, otherwise doubles; slots 1..count-1 are copied. */
    method Expand()
      requires elements.Length == capacity && 1 <= count && (count <= capacity || count == 1)
      modifies this
      ensures fresh(elements) && elements.Length == capacity && count == old(count)
      ensures capacity == if old(capacity) == 0 then 2 else 2 * old(capacity)
      ensures count < capacity
      ensures forall i :: 1 <= i < count ==> elements[i] == old(elements[i])
    {
      var oldElements, n := elements, count;
      var newCapacity := if capacity == 0 then 2 else capacity * 2;
      var newElements := new Patient[newCapacity];
      var i := 1;
      while i < n
        invariant 1 <= i <= n
        invariant forall k :: 1 <= k < i ==> newElements[k] == oldElements[k]
        modifies newElements
      {
        newElements[i] := oldElements[i];
        i := i + 1;
      }
      elements, capacity := newElements, newCapacity;
    }

    /** `moveUp`: swap slot `child` with its parent until the parent is more urgent. */
    method MoveUp(child: int)
      requires 1 <= child <= count < elements.Length
      requires HeapExceptUp(elements[..], count, child)
      modifies elements
      ensures HeapOrdered(elements[..], count)
      ensures Contents() == old(Contents())
      decreases child
    {
      var parent := child / 2;
      if parent < 1 || Compare(parent, child) {
        if parent >= 1 {
          PrecedesAsymmetric(elements[parent], elements[child]);
        }
        return;
      }
      SiftUpStep(elements[..], count, child);
      Swap(child, parent);
      MoveUp(parent);
    }

    /** `moveDown`: swap slot `parent` with its more urgent child until neither child is more urgent. */
    method MoveDown(parent: int)
      requires 1 <= parent && 0 <= count < elements.Length
      requires HeapExceptDown(elements[..], count, parent)
      modifies elements
      ensures HeapOrdered(elements[..], count)
      ensures Contents() == old(Contents())
      decreases count - parent
    {
      var urgent := parent;
      var left := parent * 2;
      var right := parent * 2 + 1;
      if left <= count && Compare(left, urgent) {
        urgent := left;
      }
      if right <= count && Compare(right, urgent) {
        if urgent == left {
          PrecedesTransitive(elements[right], elements[left], elements[parent]);
        }
        urgent := right;
      }
      if urgent != parent {
        if urgent == right && left <= count {
          if Compare(left, parent) {
            PrecedesAsymmetric(elements[right], elements[left]);
          } else {
            PrecedesAsymmetric(elements[right], elements[parent]);
            NotPrecedesTransitive(elements[left], elements[parent], elements[right]);
          }
        }
        SiftDownStep(elements[..], count, parent, urgent);
        Swap(parent, urgent);
        MoveDown(urgent);
      } else {
        forall i | 2 <= i <= count && i / 2 == parent
          ensures ParentOk(elements[..], i)
        {
        }
      }
    }

    /** `compare(p1, p2)`: slot p1 is more urgent than slot p2. */
    predicate Compare(p1: int, p2: int)
      reads this, elements
      requires 0 <= p1 < elements.Length && 0 <= p2 < elements.Length
      ensures Compare(p1, p2) ==> elements[p1].priority <= elements[p2].priority && !Precedes(elements[p2], elements[p1])
    {
      if Precedes(elements[p1], elements[p2]) then
        PrecedesAsymmetric(elements[p1], elements[p2]);
        true
      else false
    }

    /** Exchanges two slots within 1..count. */
    method Swap(i: int, j: int)
      requires 1 <= i <= count < elements.Length && 1 <= j <= count
      modifies elements
      ensures elements[..] == old(elements[..])[i := old(elements[j])][j := old(elements[i])]
      ensures Contents() == old(Contents())
    {
      ghost var a := elements[..];
      elements[i], elements[j] := elements[j], elements[i];
      assert elements[..] == a[i := a[j]][j := a[i]];
      SwapKeepsContents(a, i, j, count);
      assert Items() == elements[..][1..count + 1];
      assert old(Items()) == a[1..count + 1];
    }

    /** No slot of the subtree at `p` holds `name`. */
    ghost predicate Absent(name: string, p: int)
      reads this, elements
      requires Valid()
    {
      forall j :: 1 <= j <= count && InSubtree(p, j) ==> elements[j].name != name
    }

    /** Slot `r` of the subtree at `p` holds `name` and no slot there holding it is more urgent. */
    ghost predicate MostUrgentNamed(name: string, p: int, r: int)
      reads this, elements
      requires Valid()
    {
      && 1 <= r <= count && InSubtree(p, r) && elements[r].name == name
      && forall j :: 1 <= j <= count && InSubtree(p, j) && elements[j].name == name ==> !Precedes(elements[j], elements[r])
    }

    /**
     * `findName(name, parent)`: 0 when no slot of the subtree at `parent` holds
     * the name, otherwise a slot of that subtree holding it that is most urgent
     * among those.
     */
    function FindName(name: string, parent: int): (r: int)
      reads this, elements
      requires Valid() && parent >= 1
      ensures r == 0 <==> Absent(name, parent)
      ensures r != 0 ==> MostUrgentNamed(name, parent, r)
      decreases count + 1 - parent
    {
      if parent > count then
        0
      else if elements[parent].name == name then
        SubtreeMinAll(parent);
        parent
      else
        var left := FindName(name, parent * 2);
        var right := FindName(name, parent * 2 + 1);
        FindNameSplit(name, parent, left, right);
        if left == 0 && right == 0 then 0
        else if left == 0 then right
        else if right == 0 then left
        else if Compare(left, right) then left
        else right
    }

    lemma SubtreeMinAll(p: int)
      requires Valid() && 1 <= p <= count
      ensures forall j :: 1 <= j <= count && InSubtree(p, j) ==> !Precedes(elements[j], elements[p])
    {
      forall j | 1 <= j <= count && InSubtree(p, j)
        ensures !Precedes(elements[j], elements[p])
      {
        SubtreeMin(elements[..], count, p, j);
      }
    }

    /** How `findName` combines the answers of the two child subtrees. */
    lemma FindNameSplit(name: string, p: int, left: int, right: int)
      requires Valid() && 1 <= p <= count && elements[p].name != name
      requires left == 0 <==> Absent(name, 2 * p)
      requires left != 0 ==> MostUrgentNamed(name, 2 * p, left)
      requires right == 0 <==> Absent(name, 2 * p + 1)
      requires right != 0 ==> MostUrgentNamed(name, 2 * p + 1, right)
      ensures left == 0 && right == 0 <==> Absent(name, p)
      ensures left != 0 && right == 0 ==> MostUrgentNamed(name, p, left)
      ensures left == 0 && right != 0 ==> MostUrgentNamed(name, p, right)
      ensures left != 0 && right != 0 && Compare(left, right) ==> MostUrgentNamed(name, p, left)
      ensures left != 0 && right != 0 && !Compare(left, right) ==> MostUrgentNamed(name, p, right)
    {
      SubtreeSplitAll(p);
      if left != 0 && right != 0 {
        if Compare(left, right) {
          forall j | 1 <= j <= count && InSubtree(2 * p + 1, j) && elements[j].name == name
            ensures !Precedes(elements[j], elements[left])
          {
            PrecedesAsymmetric(elements[left], elements[right]);
            NotPrecedesTransitive(elements[j], elements[right], elements[left]);
          }
        } else {
          forall j | 1 <= j <= count && InSubtree(2 * p, j) && elements[j].name == name
            ensures !Precedes(elements[j], elements[right])
          {
            NotPrecedesTransitive(elements[j], elements[left], elements[right]);
          }
        }
      }
    }

    lemma SubtreeSplitAll(p: int)
      requires p >= 1
      ensures forall j :: InSubtree(p, j) <==> j == p || InSubtree(2 * p, j) || InSubtree(2 * p + 1, j)
    {
      forall j {
        SubtreeSplit(p, j);
      }
    }

    /** `findName(name, 1)` searches the whole heap. */
    lemma FindNameWhole(name: string)
      requires Valid()
      ensures FindName(name, 1) == 0 <==> forall j :: 1 <= j <= count ==> elements[j].name != name
      ensures FindName(name, 1) != 0 ==>
        forall j :: 1 <= j <= count && elements[j].name == name ==> !Precedes(elements[j], elements[FindName(name, 1)])
    {
      forall j | 1 <= j <= count {
        RootSubtree(j);
      }
    }
  }
}
