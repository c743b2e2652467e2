/**
 * Shared pieces of the three patient queues: the error outcomes their
 * operations throw, the ordering of names (C++ `std::string` `<`), and the
 * text that `toString` produces ("{p1:name1, p2:name2}").
 */
module PatientText {

  /** The exceptions the queues throw, one value per message builder. */
  datatype QueueError =
    | ProcessEmpty         // processPatientExceptStr
    | FrontNameEmpty       // frontNameExceptStr
    | FrontPriorityEmpty   // frontPriorityExceptStr
    | NoSuchPatient        // upgradeNoPatientExceptStr
    | NotMoreUrgent        // upgradeWrongPriorityExceptStr

  /** An operation that either returns a value or throws one of the errors above. */
  datatype Outcome<T> = Ok(value: T) | Throws(error: QueueError)

  /** A patient of the heap and linked-list queues: a name and a priority (smaller is more urgent). */
  datatype Patient = Patient(name: string, priority: int)

  /** Lexicographic `<` on strings, character by character. */
  predicate NameLess(a: string, b: string)
    decreases |a|
  {
    if |a| == 0 then |b| > 0
    else if |b| == 0 then false
    else if a[0] < b[0] then true
    else if b[0] < a[0] then false
    else NameLess(a[1..], b[1..])
  }

  lemma {:induction false} NameLessIrreflexive(a: string)
    ensures !NameLess(a, a)
    decreases |a|
  {
    if |a| > 0 {
      NameLessIrreflexive(a[1..]);
    }
  }

  lemma {:induction false} NameLessTransitive(a: string, b: string, c: string)
    requires NameLess(a, b) && NameLess(b, c)
    ensures NameLess(a, c)
    decreases |a|
  {
    if |a| > 0 && |b| > 0 && |c| > 0 && a[0] == b[0] == c[0] {
      NameLessTransitive(a[1..], b[1..], c[1..]);
    }
  }

  /** Any two different names are ordered one way or the other. */
  lemma {:induction false} NameLessTotal(a: string, b: string)
    requires a != b
    ensures NameLess(a, b) || NameLess(b, a)
    decreases |a|
  {
    if |a| > 0 && |b| > 0 && a[0] == b[0] {
      assert a == [a[0]] + a[1..] && b == [b[0]] + b[1..];
      NameLessTotal(a[1..], b[1..]);
    }
  }

  lemma {:induction false} NameLessAsymmetric(a: string, b: string)
    requires NameLess(a, b)
    ensures !NameLess(b, a)
    decreases |a|
  {
    if |a| > 0 && |b| > 0 && a[0] == b[0] {
      NameLessAsymmetric(a[1..], b[1..]);
    }
  }

  /** Decimal digits of a natural number, as `operator<<` writes it. */
  function Digits(n: nat): (s: string)
    ensures |s| > 0
    ensures '0' <= s[0] <= '9'
    decreases n
  {
    var last := [(('0' as int) + n % 10) as char];
    if n < 10 then last else Digits(n / 10) + last
  }

  /** The numeric value of a string of decimal digits. */
  function DigitsValue(s: string): int
  {
    if |s| == 0 then 0 else 10 * DigitsValue(s[..|s| - 1]) + (s[|s| - 1] as int - '0' as int)
  }

  /** Writing a number and reading it back gives the number. */
  lemma {:induction false} DigitsRoundTrip(n: nat)
    ensures DigitsValue(Digits(n)) == n
    decreases n
  {
    var s := Digits(n);
    if n >= 10 {
      DigitsRoundTrip(n / 10);
      assert s[..|s| - 1] == Digits(n / 10);
    } else {
      assert s[..|s| - 1] == [];
    }
  }

  /** An `int` written in decimal, with a leading '-' when negative. */
  function IntToString(i: int): (s: string)
    ensures |s| > 0
    ensures (s[0] == '-') == (i < 0)
  {
    if i < 0 then "-" + Digits(-i) else Digits(i)
  }

  /** One queue entry as the queues print it: "priority:name". */
  function Entry(priority: int, name: string): (s: string)
    ensures |s| > 0
  {
    IntToString(priority) + ":" + name
  }

  /** One patient as `toString` prints it. */
  function Text(p: Patient): (s: string)
    ensures |s| > 0
  {
    Entry(p.priority, p.name)
  }

  /** The printed entries of a queue's patients, in storage order. */
  function Entries<P>(s: seq<P>, text: P -> string): (r: seq<string>)
    ensures |r| == |s|
  {
    if |s| == 0 then [] else Entries(s[..|s| - 1], text) + [text(s[|s| - 1])]
  }

  lemma EntriesSnoc<P>(s: seq<P>, text: P -> string, i: nat)
    requires i < |s|
    ensures Entries(s[..i + 1], text) == Entries(s[..i], text) + [text(s[i])]
  {
    assert s[..i + 1][..i] == s[..i];
  }

  /** Items separated by ", ", built left to right as the printing loops do. */
  function Joined(items: seq<string>): string
  {
    if |items| == 0 then ""
    else if |items| == 1 then items[0]
    else Joined(items[..|items| - 1]) + ", " + items[|items| - 1]
  }

  /** The whole `toString` text: the joined items inside braces. */
  function Braced(items: seq<string>): string
  {
    "{" + Joined(items) + "}"
  }

  /** The text is "{}" exactly when there is nothing to print (entries are never empty). */
  lemma BracedEmpty(items: seq<string>)
    requires forall i :: 0 <= i < |items| ==> |items[i]| > 0
    ensures Braced(items) == "{}" <==> items == []
  {
    if items != [] {
      assert |Joined(items)| > 0 by { JoinedNonEmpty(items); }
    }
  }

  lemma {:induction false} JoinedNonEmpty(items: seq<string>)
    requires |items| > 0 && forall i :: 0 <= i < |items| ==> |items[i]| > 0
    ensures |Joined(items)| >= |items[|items| - 1]| > 0
  {
  }

  /** The printing loops' step: the open text grows by ", " and the next item. */
  lemma OpenTextStep(items: seq<string>, x: string)
    requires |items| > 0
    ensures "{" + Joined(items + [x]) == "{" + Joined(items) + ", " + x
  {
    JoinedSnoc(items, x);
  }

  /** Appending one more item to a non-empty prefix adds ", " and the item. */
  lemma JoinedSnoc(items: seq<string>, x: string)
    requires |items| > 0
    ensures Joined(items + [x]) == Joined(items) + ", " + x
  {
    assert (items + [x])[..|items|] == items;
  }
}
