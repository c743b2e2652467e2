/**
 * VectorPatientQueue: an unsorted vector of patients. Each patient carries an
 * insertion timestamp that breaks ties between equal priorities, so the most
 * urgent patient is the one with the smallest (priority, timestamp).
 */
module VectorQueue {
  import opened PatientText

  datatype StampedPatient = Stamped(name: string, priority: int, timestamp: int)

  /** The index `findName` reports for a missing name. */
  const NOT_FOUND: int := -1

  /** `a` is more urgent than `b`: smaller priority, or equal priority and older timestamp. */
  predicate Before(a: StampedPatient, b: StampedPatient)
  {
    a.priority < b.priority || (a.priority == b.priority && a.timestamp < b.timestamp)
  }

  /**
   * The index the scan of `findMostUrgent` ends on: the first entry whose
   * (priority, timestamp) is smallest.
   */
  function MostUrgentIndex(s: seq<StampedPatient>): (k: nat)
    requires |s| > 0
    ensures k < |s|
    ensures forall j :: 0 <= j < |s| ==> !Before(s[j], s[k])
    ensures forall j :: 0 <= j < k ==> Before(s[k], s[j])
  {
    if |s| == 1 then 0
    else
      var k := MostUrgentIndex(s[..|s| - 1]);
      if Before(s[|s| - 1], s[k]) then |s| - 1 else k
  }

  /**
   * The index the scan of `findName` ends on: NOT_FOUND when no entry has the
   * name, otherwise the first entry of that name with the smallest
   * (priority, timestamp).
   */
  function NameIndex(s: seq<StampedPatient>, name: string): (k: int)
    ensures k == NOT_FOUND <==> forall j :: 0 <= j < |s| ==> s[j].name != name
    ensures k != NOT_FOUND ==> 0 <= k < |s| && s[k].name == name
    ensures k != NOT_FOUND ==> forall j :: 0 <= j < |s| && s[j].name == name ==> !Before(s[j], s[k])
    ensures k != NOT_FOUND ==> forall j :: 0 <= j < k && s[j].name == name ==> Before(s[k], s[j])
  {
    if |s| == 0 then NOT_FOUND
    else
      var k := NameIndex(s[..|s| - 1], name);
      var last := s[|s| - 1];
      if last.name != name then k
      else if k == NOT_FOUND then |s| - 1
      else if Before(last, s[k]) then |s| - 1
      else k
  }

  /** One entry as `toString` prints it. */
  function StampedText(p: StampedPatient): string
  {
    Entry(p.priority, p.name)
  }

  /** Every stored timestamp is between 1 and the counter, and no two are equal. */
  ghost predicate TimestampsOk(s: seq<StampedPatient>, counter: int)
  {
    && (forall i :: 0 <= i < |s| ==> 1 <= s[i].timestamp <= counter)
    && (forall i, j :: 0 <= i < j < |s| ==> s[i].timestamp != s[j].timestamp)
  }

  /** With distinct timestamps the most urgent entry is unique: it precedes every other one. */
  lemma MostUrgentIsStrict(s: seq<StampedPatient>, counter: int, j: nat)
    requires |s| > 0 && TimestampsOk(s, counter)
    requires j < |s| && j != MostUrgentIndex(s)
    ensures Before(s[MostUrgentIndex(s)], s[j])
  {
  }

  class VectorPatientQueue {
    var pq: seq<StampedPatient>
    var timestamp: int

    ghost predicate Valid()
      reads this
    {
      0 <= timestamp && TimestampsOk(pq, timestamp)
    }

    constructor ()
      ensures Valid() && pq == [] && timestamp == 0
    {
      pq := [];
      timestamp := 0;
    }

    /** Empties the vector and restarts the timestamp counter. */
    method Clear()
      modifies this
      ensures Valid() && pq == [] && timestamp == 0
    {
      pq := [];
      timestamp := 0;
    }

    method IsEmpty() returns (empty: bool)
      ensures empty <==> |pq| == 0
    {
      empty := |pq| == 0;
    }

    /** Linear scan for the most urgent entry; 0 when the vector is empty. */
    method FindMostUrgent() returns (found: nat)
      ensures |pq| == 0 ==> found == 0
      ensures |pq| > 0 ==> found == MostUrgentIndex(pq)
    {
      found := 0;
      var i := 0;
      while i < |pq|
        invariant 0 <= i <= |pq|
        invariant i == 0 ==> found == 0
        invariant i > 0 ==> found == MostUrgentIndex(pq[..i])
      {
        if pq[i].priority == pq[found].priority {
          if pq[i].timestamp < pq[found].timestamp {
            found := i;
          }
        } else if pq[i].priority < pq[found].priority {
          found := i;
        }
        assert pq[..i + 1][..i] == pq[..i];
        i := i + 1;
      }
      assert pq[..i] == pq;
    }

    method FrontName() returns (r: Outcome<string>)
      ensures |pq| == 0 ==> r == Throws(FrontNameEmpty)
      ensures |pq| > 0 ==> r == Ok(pq[MostUrgentIndex(pq)].name)
    {
      if |pq| == 0 {
        return Throws(FrontNameEmpty);
      }
      var k := FindMostUrgent();
      r := Ok(pq[k].name);
    }

    method FrontPriority() returns (r: Outcome<int>)
      ensures |pq| == 0 ==> r == Throws(FrontPriorityEmpty)
      ensures |pq| > 0 ==> r == Ok(pq[MostUrgentIndex(pq)].priority)
    {
      if |pq| == 0 {
        return Throws(FrontPriorityEmpty);
      }
      var k := FindMostUrgent();
      r := Ok(pq[k].priority);
    }

    /** Appends the patient with the next timestamp. */
    method NewPatient(name: string, priority: int)
      requires Valid()
      modifies this
      ensures Valid()
      ensures timestamp == old(timestamp) + 1
      ensures pq == old(pq) + [Stamped(name, priority, timestamp)]
      ensures forall i :: 0 <= i < |old(pq)| ==> pq[i].timestamp < pq[|pq| - 1].timestamp
    {
      timestamp := timestamp + 1;
      pq := pq + [Stamped(name, priority, timestamp)];
    }

    /** Removes and returns the most urgent patient; the others keep their order. */
    method ProcessPatient() returns (r: Outcome<string>)
      requires Valid()
      modifies this
      ensures Valid() && timestamp == old(timestamp)
      ensures |old(pq)| == 0 ==> r == Throws(ProcessEmpty) && pq == old(pq)
      ensures |old(pq)| > 0 ==>
        var k := MostUrgentIndex(old(pq));
        r == Ok(old(pq)[k].name) && pq == old(pq)[..k] + old(pq)[k + 1..]
    {
      if |pq| == 0 {
        return Throws(ProcessEmpty);
      }
      var urgent := FindMostUrgent();
      var name := pq[urgent].name;
      pq := pq[..urgent] + pq[urgent + 1..];
      r := Ok(name);
    }

    /**
     * Gives the named patient (the most urgent entry of that name) a more
     * urgent priority and a fresh timestamp; nothing else changes.
     */
    method UpgradePatient(name: string, newPriority: int) returns (r: Outcome<()>)
      requires Valid()
      modifies this
      ensures Valid()
      ensures var k := NameIndex(old(pq), name);
        && (k == NOT_FOUND ==> r == Throws(NoSuchPatient) && pq == old(pq) && timestamp == old(timestamp))
        && (k != NOT_FOUND && old(pq)[k].priority <= newPriority ==>
              r == Throws(NotMoreUrgent) && pq == old(pq) && timestamp == old(timestamp))
        && (k != NOT_FOUND && old(pq)[k].priority > newPriority ==>
              && r == Ok(())
              && timestamp == old(timestamp) + 1
              && pq == old(pq)[k := Stamped(name, newPriority, timestamp)])
      ensures r.Ok? ==> forall i :: 0 <= i < |pq| && pq[i].timestamp != timestamp ==> pq[i].timestamp < timestamp
    {
      var found := FindName(name);
      if found == NOT_FOUND {
        return Throws(NoSuchPatient);
      }
      if pq[found].priority <= newPriority {
        return Throws(NotMoreUrgent);
      }
      timestamp := timestamp + 1;
      pq := pq[found := Stamped(name, newPriority, timestamp)];
      r := Ok(());
    }

    /** Linear scan for the most urgent entry carrying `name`, or NOT_FOUND. */
    method FindName(name: string) returns (found: int)
      ensures found == NameIndex(pq, name)
    {
      found := NOT_FOUND;
      var i := 0;
      while i < |pq|
        invariant 0 <= i <= |pq|
        invariant found == NameIndex(pq[..i], name)
      {
        assert pq[..i + 1][..i] == pq[..i];
        if pq[i].name == name {
          if found != NOT_FOUND {
            if pq[i].priority == pq[found].priority {
              if pq[i].timestamp < pq[found].timestamp {
                found := i;
              }
            } else if pq[i].priority < pq[found].priority {
              found := i;
            }
          } else {
            found := i;
          }
        }
        i := i + 1;
      }
      assert pq[..i] == pq;
    }

    /** "{}" when empty, else "p:name" entries in vector order, comma separated, in braces. */
    method ToString() returns (s: string)
      ensures s == Braced(Entries(pq, StampedText))
    {
      if |pq| == 0 {
        return "{}";
      }
      s := "{" + IntToString(pq[0].priority) + ":" + pq[0].name;
      assert Entries(pq[..1], StampedText) == [StampedText(pq[0])];
      var i := 1;
      while i < |pq|
        invariant 1 <= i <= |pq|
        invariant s == "{" + Joined(Entries(pq[..i], StampedText))
      {
        var e := IntToString(pq[i].priority) + ":" + pq[i].name;
        EntriesSnoc(pq, StampedText, i);
        OpenTextStep(Entries(pq[..i], StampedText), e);
        s := s + ", " + e;
        i := i + 1;
      }
      assert pq[..i] == pq;
      s := s + "}";
    }
  }
}
