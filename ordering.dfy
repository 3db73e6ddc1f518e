/** The orders the roster sorts by, and the stable sort both `List.sort` and
    a sorted stream perform. */
module Ordering {
  import opened Strings
  import opened Domain

  /** `comparingDouble(Student::getGpa)` and its `reversed()`, `comparing(
      getFullName, CASE_INSENSITIVE_ORDER)`, and the store's `ORDER BY
      full_name` under the binary collation. */
  datatype Order = GpaAscending | GpaDescending | NameIgnoringCase | NameBinary

  /** `a` may come before `b`: the comparator does not put `b` first. */
  predicate Le(o: Order, a: StudentRecord, b: StudentRecord)
  {
    match o
    case GpaAscending => a.gpa <= b.gpa
    case GpaDescending => a.gpa >= b.gpa
    case NameIgnoringCase => LexLe(Lower(a.fullName), Lower(b.fullName))
    case NameBinary => LexLe(a.fullName, b.fullName)
  }

  /** The comparator returns 0: neither is put before the other. */
  predicate Tied(o: Order, a: StudentRecord, b: StudentRecord)
  {
    Le(o, a, b) && Le(o, b, a)
  }

  lemma LeTotal(o: Order, a: StudentRecord, b: StudentRecord)
    ensures Le(o, a, b) || Le(o, b, a)
  {
    match o
    case NameIgnoringCase => LexLeTotal(Lower(a.fullName), Lower(b.fullName));
    case NameBinary => LexLeTotal(a.fullName, b.fullName);
    case _ =>
  }

  lemma LeTransitive(o: Order, a: StudentRecord, b: StudentRecord, c: StudentRecord)
    requires Le(o, a, b) && Le(o, b, c)
    ensures Le(o, a, c)
  {
    match o
    case NameIgnoringCase => LexLeTransitive(Lower(a.fullName), Lower(b.fullName), Lower(c.fullName));
    case NameBinary => LexLeTransitive(a.fullName, b.fullName, c.fullName);
    case _ =>
  }

  predicate Sorted(o: Order, s: seq<StudentRecord>)
  {
    forall i, j :: 0 <= i < j < |s| ==> Le(o, s[i], s[j])
  }

  /** Puts `x` before the first element it may precede. */
  function Insert(o: Order, x: StudentRecord, s: seq<StudentRecord>): (r: seq<StudentRecord>)
    ensures multiset(r) == multiset(s) + multiset{x}
  {
    if |s| == 0 then [x]
    else if Le(o, x, s[0]) then [x] + s
    else
      assert s == [s[0]] + s[1..];
      [s[0]] + Insert(o, x, s[1..])
  }

  /** The stable sort: every element is inserted in front of the later ones
      it ties with. */
  function Sort(o: Order, s: seq<StudentRecord>): (r: seq<StudentRecord>)
    ensures multiset(r) == multiset(s)
  {
    if |s| == 0 then []
    else
      assert s == [s[0]] + s[1..];
      Insert(o, s[0], Sort(o, s[1..]))
  }

  lemma {:induction false} InsertSorted(o: Order, x: StudentRecord, s: seq<StudentRecord>)
    requires Sorted(o, s)
    ensures Sorted(o, Insert(o, x, s))
  {
    if |s| > 0 {
      if Le(o, x, s[0]) {
        forall j | 0 <= j < |s| ensures Le(o, x, s[j]) {
          if j > 0 { LeTransitive(o, x, s[0], s[j]); }
        }
        ConsSorted(o, x, s);
      } else {
        LeTotal(o, x, s[0]);
        InsertSorted(o, x, s[1..]);
        InsertBounded(o, s[0], x, s[1..]);
        ConsSorted(o, s[0], Insert(o, x, s[1..]));
      }
    }
  }

  /** A sorted sequence stays sorted behind an element that may precede all of it. */
  lemma ConsSorted(o: Order, h: StudentRecord, t: seq<StudentRecord>)
    requires Sorted(o, t) && forall j :: 0 <= j < |t| ==> Le(o, h, t[j])
    ensures Sorted(o, [h] + t)
  {
    var r := [h] + t;
    forall i, j | 0 <= i < j < |r| ensures Le(o, r[i], r[j]) {
      if i > 0 { assert r[i] == t[i - 1] && r[j] == t[j - 1]; }
      else { assert r[j] == t[j - 1]; }
    }
  }

  /** An element that may precede `x` and all of `s` may precede all of `Insert(o, x, s)`. */
  lemma InsertBounded(o: Order, h: StudentRecord, x: StudentRecord, s: seq<StudentRecord>)
    requires Le(o, h, x) && forall j :: 0 <= j < |s| ==> Le(o, h, s[j])
    ensures forall j :: 0 <= j < |Insert(o, x, s)| ==> Le(o, h, Insert(o, x, s)[j])
  {
    var t := Insert(o, x, s);
    forall j | 0 <= j < |t| ensures Le(o, h, t[j]) {
      assert t[j] in multiset(s) + multiset{x};
      if t[j] != x {
        var k :| 0 <= k < |s| && s[k] == t[j];
      }
    }
  }

  /** The sorted output is in order. The sort is also a permutation of its
      input (the `ensures` of `Sort`). */
  lemma {:induction false} SortSorted(o: Order, s: seq<StudentRecord>)
    ensures Sorted(o, Sort(o, s))
  {
    if |s| > 0 {
      SortSorted(o, s[1..]);
      InsertSorted(o, s[0], Sort(o, s[1..]));
    }
  }

  /** The elements of `s` tied with `e`, in their order in `s`. */
  function Ties(o: Order, e: StudentRecord, s: seq<StudentRecord>): seq<StudentRecord>
  {
    if |s| == 0 then []
    else (if Tied(o, e, s[0]) then [s[0]] else []) + Ties(o, e, s[1..])
  }

  lemma {:induction false} InsertTies(o: Order, e: StudentRecord, x: StudentRecord, s: seq<StudentRecord>)
    ensures Ties(o, e, Insert(o, x, s)) == (if Tied(o, e, x) then [x] else []) + Ties(o, e, s)
  {
    var r := Insert(o, x, s);
    var tx := if Tied(o, e, x) then [x] else [];
    if |s| > 0 && !Le(o, x, s[0]) {
      InsertTies(o, e, x, s[1..]);
      assert r[0] == s[0] && r[1..] == Insert(o, x, s[1..]);
      var t0 := if Tied(o, e, s[0]) then [s[0]] else [];
      var rest := Ties(o, e, s[1..]);
      assert Ties(o, e, r) == t0 + (tx + rest);
      assert Ties(o, e, s) == t0 + rest;
      if Tied(o, e, x) && Tied(o, e, s[0]) {
        LeTransitive(o, x, e, s[0]);
      }
      if Tied(o, e, s[0]) {
        assert tx + rest == rest && tx + (t0 + rest) == t0 + rest;
      } else {
        assert t0 + (tx + rest) == tx + rest && t0 + rest == rest;
      }
    } else {
      assert r == [x] + s && r[0] == x && r[1..] == s;
    }
  }

  /** The sort is stable: elements the comparator ties keep their input order. */
  lemma {:induction false} SortStable(o: Order, e: StudentRecord, s: seq<StudentRecord>)
    ensures Ties(o, e, Sort(o, s)) == Ties(o, e, s)
  {
    if |s| > 0 {
      SortStable(o, e, s[1..]);
      InsertTies(o, e, s[0], Sort(o, s[1..]));
    }
  }
}
