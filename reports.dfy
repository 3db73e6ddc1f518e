/** `ReportService`: the read-only reports over a list of students. */
module Reports {
  import opened Wrappers
  import opened Strings
  import opened Domain
  import opened Ordering

  /** A stream's `filter`: the elements `keep` accepts, in their order. */
  function Where(s: seq<StudentRecord>, keep: StudentRecord -> bool): (r: seq<StudentRecord>)
    ensures forall x :: multiset(r)[x] == if keep(x) then multiset(s)[x] else 0
  {
    if |s| == 0 then []
    else
      assert s == s[..|s| - 1] + [s[|s| - 1]];
      Where(s[..|s| - 1], keep) + (if keep(s[|s| - 1]) then [s[|s| - 1]] else [])
  }

  lemma WhereSnoc(s: seq<StudentRecord>, x: StudentRecord, keep: StudentRecord -> bool)
    ensures Where(s + [x], keep) == Where(s, keep) + (if keep(x) then [x] else [])
  {
    assert (s + [x])[..|s|] == s;
  }

  /** The elements of a prefix tied with `e` are a prefix of those of the whole. */
  lemma {:induction false} TiesPrefix(o: Order, e: StudentRecord, s: seq<StudentRecord>, m: nat)
    requires m <= |s|
    ensures Ties(o, e, s[..m]) <= Ties(o, e, s)
  {
    if m > 0 {
      TiesPrefix(o, e, s[1..], m - 1);
      assert s[..m][1..] == s[1..][..m - 1];
    }
  }

  // getTopPerformers

  /** The two filters of `getTopPerformers`: a blank programme or an absent
      level leaves that criterion out; programmes compare ignoring case. */
  predicate TopMatches(programme: string, level: Option<int>, r: StudentRecord)
  {
    && (IsBlank(programme) || EqualsIgnoreCase(r.programme, programme))
    && (level.None? || r.level == level.value)
  }

  /** The students `getTopPerformers` ranks: those both filters keep. */
  function Candidates(students: seq<StudentRecord>, programme: string, level: Option<int>): (r: seq<StudentRecord>)
    ensures forall x :: x in multiset(r) ==> x in students && TopMatches(programme, level, x)
  {
    Where(students, (r: StudentRecord) => TopMatches(programme, level, r))
  }

  /** `getTopPerformers`: the first `topN` of the matching students by GPA,
      highest first; `limit` rejects a negative `topN`. */
  function TopPerformers(students: seq<StudentRecord>, topN: int, programme: string, level: Option<int>)
    : (r: Option<seq<StudentRecord>>)
    ensures r.None? <==> topN < 0
    ensures r.Some? ==> |r.value| == Min(topN, |Candidates(students, programme, level)|)
    ensures r.Some? ==> forall x :: x in r.value ==> x in students && TopMatches(programme, level, x)
    ensures r.Some? && topN >= |Candidates(students, programme, level)| ==>
      multiset(r.value) == multiset(Candidates(students, programme, level))
  {
    if topN < 0 then None
    else
      var sorted := Sort(GpaDescending, Candidates(students, programme, level));
      var m := Min(topN, |sorted|);
      assert m == |sorted| ==> sorted[..m] == sorted;
      ChosenMatch(students, programme, level, m);
      Some(sorted[..m])
  }

  /** Every student among the first `m` sorted candidates is a matching input student. */
  lemma ChosenMatch(students: seq<StudentRecord>, programme: string, level: Option<int>, m: nat)
    requires m <= |Candidates(students, programme, level)|
    ensures var sorted := Sort(GpaDescending, Candidates(students, programme, level));
      forall x :: x in sorted[..m] ==> x in students && TopMatches(programme, level, x)
  {
    var c := Candidates(students, programme, level);
    var sorted := Sort(GpaDescending, c);
    forall x | x in sorted[..m] ensures x in students && TopMatches(programme, level, x) {
      PrefixMember(sorted, m, x);
    }
  }

  lemma PrefixMember(t: seq<StudentRecord>, m: nat, x: StudentRecord)
    requires m <= |t| && x in t[..m]
    ensures x in multiset(t)
  {
    assert t == t[..m] + t[m..];
  }

  function Min(a: int, b: int): int
  {
    if a <= b then a else b
  }

  lemma TopPerformersSorted(students: seq<StudentRecord>, topN: int, programme: string, level: Option<int>)
    requires topN >= 0
    ensures Sorted(GpaDescending, TopPerformers(students, topN, programme, level).value)
  {
    SortSorted(GpaDescending, Candidates(students, programme, level));
  }

  /** Students of equal GPA appear in their input order: those chosen are the
      first of their tie group. */
  lemma TopPerformersStable(students: seq<StudentRecord>, topN: int, programme: string, level: Option<int>, e: StudentRecord)
    requires topN >= 0
    ensures var c := Candidates(students, programme, level);
      Ties(GpaDescending, e, TopPerformers(students, topN, programme, level).value) <= Ties(GpaDescending, e, c)
  {
    var c := Candidates(students, programme, level);
    var sorted := Sort(GpaDescending, c);
    TiesPrefix(GpaDescending, e, sorted, Min(topN, |sorted|));
    SortStable(GpaDescending, e, c);
  }

  /** No matching student left out has a higher GPA than one chosen. */
  lemma TopPerformersAreTop(students: seq<StudentRecord>, topN: int, programme: string, level: Option<int>,
                            x: StudentRecord, y: StudentRecord)
    requires topN >= 0
    requires var r := TopPerformers(students, topN, programme, level).value;
      y in r && multiset(r)[x] < multiset(Candidates(students, programme, level))[x]
    ensures x.gpa <= y.gpa
  {
    var c := Candidates(students, programme, level);
    var sorted := Sort(GpaDescending, c);
    var m := Min(topN, |sorted|);
    SortSorted(GpaDescending, c);
    var j := LaterOccurrence(sorted, m, x);
    var i :| 0 <= i < |sorted[..m]| && sorted[..m][i] == y;
    assert Le(GpaDescending, sorted[i], sorted[j]);
  }

  /** An element `t[..m]` holds fewer copies of than `t` occurs at or after `m`. */
  lemma LaterOccurrence(t: seq<StudentRecord>, m: nat, x: StudentRecord) returns (j: nat)
    requires m <= |t| && multiset(t[..m])[x] < multiset(t)[x]
    ensures m <= j < |t| && t[j] == x
  {
    assert t == t[..m] + t[m..];
    assert x in multiset(t[m..]);
    var k :| 0 <= k < |t[m..]| && t[m..][k] == x;
    j := m + k;
  }

  // getAtRiskStudents

  function Below(students: seq<StudentRecord>, threshold: real): seq<StudentRecord>
  {
    Where(students, (r: StudentRecord) => r.gpa < threshold)
  }

  /** `getAtRiskStudents`: exactly the students below the threshold, lowest
      GPA first. */
  function AtRisk(students: seq<StudentRecord>, threshold: real): (r: seq<StudentRecord>)
    ensures forall x :: multiset(r)[x] == if x.gpa < threshold then multiset(students)[x] else 0
  {
    Sort(GpaAscending, Below(students, threshold))
  }

  lemma AtRiskSorted(students: seq<StudentRecord>, threshold: real)
    ensures Sorted(GpaAscending, AtRisk(students, threshold))
  {
    SortSorted(GpaAscending, Below(students, threshold));
  }

  /** Students of equal GPA keep their input order. */
  lemma AtRiskStable(students: seq<StudentRecord>, threshold: real, e: StudentRecord)
    ensures Ties(GpaAscending, e, AtRisk(students, threshold))
         == Ties(GpaAscending, e, Below(students, threshold))
  {
    SortStable(GpaAscending, e, Below(students, threshold));
  }

  // getGpaDistribution

  /** The labels of the four bands, in the map's insertion order. */
  function BandLabel(b: nat): string
  {
    if b == 0 then "0.0 \U{2013} 1.0"
    else if b == 1 then "1.0 \U{2013} 2.0"
    else if b == 2 then "2.0 \U{2013} 3.0"
    else "3.0 \U{2013} 4.0"
  }

  /** Band `b` covers `[b, b + 1)`, except that the first is open below and
      the last open above. */
  predicate InBand(g: real, b: nat)
  {
    b < 4 && (b == 0 || b as real <= g) && (b == 3 || g < (b + 1) as real)
  }

  /** The band the `if` chain of the loop picks for `g`. */
  function BandOf(g: real): (b: nat)
    ensures InBand(g, b)
  {
    if g < 1.0 then 0 else if g < 2.0 then 1 else if g < 3.0 then 2 else 3
  }

  /** Every GPA is in exactly one band. */
  lemma BandsPartition(g: real, b: nat)
    ensures InBand(g, b) <==> b == BandOf(g)
  {
  }

  function BandCount(s: seq<StudentRecord>, b: nat): (n: nat)
    ensures n <= |s|
  {
    if |s| == 0 then 0
    else BandCount(s[..|s| - 1], b) + (if BandOf(s[|s| - 1].gpa) == b then 1 else 0)
  }

  /** The four counts add up to the number of students. */
  lemma {:induction false} BandCountsSum(s: seq<StudentRecord>)
    ensures BandCount(s, 0) + BandCount(s, 1) + BandCount(s, 2) + BandCount(s, 3) == |s|
  {
    if |s| > 0 {
      BandCountsSum(s[..|s| - 1]);
    }
  }

  /** The distribution in the order the reports show it. */
  function Distribution(s: seq<StudentRecord>): seq<(string, nat)>
  {
    [(BandLabel(0), BandCount(s, 0)), (BandLabel(1), BandCount(s, 1)),
     (BandLabel(2), BandCount(s, 2)), (BandLabel(3), BandCount(s, 3))]
  }

  /** `getGpaDistribution`: four bands set to zero, then one `merge` per
      student into the band its GPA falls in. */
  method GpaDistribution(students: seq<StudentRecord>) returns (d: seq<(string, nat)>)
    ensures d == Distribution(students)
  {
    d := [(BandLabel(0), 0), (BandLabel(1), 0), (BandLabel(2), 0), (BandLabel(3), 0)];
    for i := 0 to |students|
      invariant d == Distribution(students[..i])
    {
      assert students[..i + 1][..i] == students[..i];
      var g := students[i].gpa;
      if g < 1.0 {
        d := d[0 := (d[0].0, d[0].1 + 1)];
      } else if g < 2.0 {
        d := d[1 := (d[1].0, d[1].1 + 1)];
      } else if g < 3.0 {
        d := d[2 := (d[2].0, d[2].1 + 1)];
      } else {
        d := d[3 := (d[3].0, d[3].1 + 1)];
      }
    }
    assert students[..|students|] == students;
  }

  // getAverageGpa

  function SumGpa(s: seq<StudentRecord>): real
  {
    if |s| == 0 then 0.0 else SumGpa(s[..|s| - 1]) + s[|s| - 1].gpa
  }

  /** `getAverageGpa` and `average().orElse(0.0)`: the mean GPA, 0 for no students. */
  function AverageGpa(s: seq<StudentRecord>): (a: real)
    ensures |s| == 0 ==> a == 0.0
    ensures |s| > 0 ==> a * |s| as real == SumGpa(s)
  {
    if |s| == 0 then 0.0 else SumGpa(s) / |s| as real
  }

  lemma {:induction false} SumBounds(s: seq<StudentRecord>, lo: real, hi: real)
    requires forall i :: 0 <= i < |s| ==> lo <= s[i].gpa <= hi
    ensures |s| as real * lo <= SumGpa(s) <= |s| as real * hi
  {
    if |s| > 0 {
      var n := |s| - 1;
      SumBounds(s[..n], lo, hi);
      assert (n + 1) as real * lo == n as real * lo + lo;
      assert (n + 1) as real * hi == n as real * hi + hi;
    }
  }

  /** The average lies between the lowest and the highest GPA. */
  lemma AverageBetween(s: seq<StudentRecord>, lo: real, hi: real)
    requires |s| > 0
    requires forall i :: 0 <= i < |s| ==> lo <= s[i].gpa <= hi
    ensures lo <= AverageGpa(s) <= hi
  {
    SumBounds(s, lo, hi);
  }

  // countActive, countInactive

  function CountStatus(s: seq<StudentRecord>, st: Status): (n: nat)
    ensures n <= |s|
  {
    if |s| == 0 then 0
    else CountStatus(s[..|s| - 1], st) + (if s[|s| - 1].status == st then 1 else 0)
  }

  /** `countActive` and `countInactive` count every student once between them. */
  lemma {:induction false} ActivePlusInactive(s: seq<StudentRecord>)
    ensures CountStatus(s, Active) + CountStatus(s, Inactive) == |s|
  {
    if |s| > 0 {
      ActivePlusInactive(s[..|s| - 1]);
    }
  }

  // getProgrammeSummary

  /** A programme's entry: its number of students and their mean GPA. */
  datatype ProgrammeStats = ProgrammeStats(count: nat, average: real)

  /** `groupingBy(getProgramme)`: a programme's students, in input order. */
  function Group(s: seq<StudentRecord>, p: string): seq<StudentRecord>
  {
    Where(s, (r: StudentRecord) => r.programme == p)
  }

  lemma GroupSnoc(s: seq<StudentRecord>, x: StudentRecord, p: string)
    ensures Group(s + [x], p) == Group(s, p) + (if x.programme == p then [x] else [])
  {
    WhereSnoc(s, x, (r: StudentRecord) => r.programme == p);
  }

  /** The distinct programmes, in order of first appearance. */
  function Programmes(s: seq<StudentRecord>): (ps: seq<string>)
    ensures forall p :: p in ps <==> exists i :: 0 <= i < |s| && s[i].programme == p
  {
    if |s| == 0 then []
    else
      var pre := Programmes(s[..|s| - 1]);
      var p := s[|s| - 1].programme;
      assert forall i :: 0 <= i < |s| - 1 ==> s[..|s| - 1][i] == s[i];
      if p in pre then pre else pre + [p]
  }

  predicate Distinct(ps: seq<string>)
  {
    forall i, j :: 0 <= i < j < |ps| ==> ps[i] != ps[j]
  }

  lemma {:induction false} ProgrammesDistinct(s: seq<StudentRecord>)
    ensures Distinct(Programmes(s))
  {
    if |s| > 0 {
      ProgrammesDistinct(s[..|s| - 1]);
    }
  }

  /** `getProgrammeSummary`, as a value: one entry per programme present. */
  function Summary(s: seq<StudentRecord>): map<string, ProgrammeStats>
  {
    map p | p in Programmes(s) :: Stats(Group(s, p))
  }

  /** `getProgrammeSummary`: the students grouped by programme, then one
      entry put per group. */
  method ProgrammeSummary(students: seq<StudentRecord>) returns (summary: map<string, ProgrammeStats>)
    ensures summary == Summary(students)
  {
    var byProg := map p | p in Programmes(students) :: Group(students, p);
    summary := PutAll(byProg);
  }

  /** The statistics of one group, the pair `getProgrammeSummary` puts. */
  function Stats(list: seq<StudentRecord>): ProgrammeStats
  {
    ProgrammeStats(|list|, AverageGpa(list))
  }

  /** The `forEach` of `getProgrammeSummary`: one `put` per group. */
  method PutAll(groups: map<string, seq<StudentRecord>>) returns (summary: map<string, ProgrammeStats>)
    ensures summary.Keys == groups.Keys
    ensures forall p :: p in summary ==> summary[p] == Stats(groups[p])
  {
    summary := map[];
    var pending := groups.Keys;
    while pending != {}
      invariant pending <= groups.Keys
      invariant summary.Keys == groups.Keys - pending
      invariant forall p :: p in summary ==> summary[p] == Stats(groups[p])
      decreases |pending|
    {
      var p :| p in pending;
      var list := groups[p];
      summary := summary[p := Stats(list)];
      pending := pending - {p};
    }
  }

  /** A programme nobody takes has no group. */
  lemma GroupAbsent(s: seq<StudentRecord>, p: string)
    requires p !in Programmes(s)
    ensures Group(s, p) == []
  {
  }

  function SumCounts(sm: map<string, ProgrammeStats>, ps: seq<string>): int
    requires forall p :: p in ps ==> p in sm
  {
    if |ps| == 0 then 0 else SumCounts(sm, ps[..|ps| - 1]) + sm[ps[|ps| - 1]].count
  }

  function SumGroups(s: seq<StudentRecord>, ps: seq<string>): int
  {
    if |ps| == 0 then 0 else SumGroups(s, ps[..|ps| - 1]) + |Group(s, ps[|ps| - 1])|
  }

  lemma {:induction false} SumGroupsSnoc(s: seq<StudentRecord>, x: StudentRecord, ps: seq<string>)
    requires Distinct(ps)
    ensures SumGroups(s + [x], ps) == SumGroups(s, ps) + (if x.programme in ps then 1 else 0)
  {
    if |ps| > 0 {
      var q := ps[|ps| - 1];
      var pre := ps[..|ps| - 1];
      assert ps == pre + [q];
      SumGroupsSnoc(s, x, pre);
      GroupSnoc(s, x, q);
      assert x.programme !in pre || x.programme != q;
    }
  }

  lemma {:induction false} SumGroupsAll(s: seq<StudentRecord>)
    ensures SumGroups(s, Programmes(s)) == |s|
  {
    if |s| > 0 {
      var pre := s[..|s| - 1];
      var x := s[|s| - 1];
      assert s == pre + [x];
      SumGroupsAll(pre);
      ProgrammesDistinct(pre);
      SumGroupsSnoc(pre, x, Programmes(pre));
      if x.programme !in Programmes(pre) {
        GroupAbsent(pre, x.programme);
        GroupSnoc(pre, x, x.programme);
        assert Programmes(s) == Programmes(pre) + [x.programme];
        assert Programmes(s)[..|Programmes(s)| - 1] == Programmes(pre);
      }
    }
  }

  lemma {:induction false} SumCountsGroups(s: seq<StudentRecord>, ps: seq<string>)
    requires forall p :: p in ps ==> p in Programmes(s)
    ensures SumCounts(Summary(s), ps) == SumGroups(s, ps)
  {
    if |ps| > 0 {
      SumCountsGroups(s, ps[..|ps| - 1]);
    }
  }

  /** The summary has one entry per distinct programme, and its counts add up
      to the number of students. */
  lemma SummaryCounts(s: seq<StudentRecord>)
    ensures var sm := Summary(s);
      && Distinct(Programmes(s))
      && (forall p :: p in sm <==> p in Programmes(s))
      && SumCounts(sm, Programmes(s)) == |s|
  {
    ProgrammesDistinct(s);
    SumCountsGroups(s, Programmes(s));
    SumGroupsAll(s);
  }
}
