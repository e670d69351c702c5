/** The class dashboard: one analytics record per student (per-subject
    counts and averages, the overall average, absences), ranked with the
    shared rank loop after a sort on the overall average, then re-sorted by
    last name for display. */
module Dashboard {
  import opened Records
  import opened Grouping
  import opened Sorting
  import opened Ranking
  import opened Averages
  import opened DashboardFormat

  datatype SubjectAnalytics = SubjectAnalytics(avgScore: Option<real>, gradeCount: nat, absences: nat)

  datatype StudentAnalytics = StudentAnalytics(
    id: string,
    name: string,
    overallAvgScore: Option<real>,
    rank: nat,
    totalAbsences: nat,
    subjects: map<string, SubjectAnalytics>)

  // ---------------------------------------------------------------------
  // Counting marks

  predicate IsAbsent(x: Score) { x == Absent }
  predicate IsExcused(x: Score) { x == Excused }
  predicate IsBlank(x: Score) { x == Blank }
  predicate IsCredit(x: Score) { x == Credit }
  predicate IsNumber(x: Score) { x.Num? }

  /** `g.score !== 'н' && g.score !== 'б' && g.score !== null`. */
  predicate IsGraded(x: Score) { x != Absent && x != Excused && x != Blank }

  /** `grades.filter(g => p(g.score)).length`. */
  function CountWhere(s: seq<Grade>, p: Score -> bool): (n: nat)
    ensures n <= |s|
    ensures n == 0 <==> forall i :: 0 <= i < |s| ==> !p(s[i].score)
    ensures n == |s| <==> forall i :: 0 <= i < |s| ==> p(s[i].score)
  {
    if |s| == 0 then 0
    else CountWhere(s[..|s| - 1], p) + (if p(s[|s| - 1].score) then 1 else 0)
  }

  /** The graded records are the numeric and the 'зачет' ones, and graded,
      'н', 'б' and empty records together are all the records. */
  lemma {:induction false} ScoreCounts(s: seq<Grade>)
    ensures CountWhere(s, IsGraded) == CountWhere(s, IsNumber) + CountWhere(s, IsCredit)
    ensures CountWhere(s, IsGraded) + CountWhere(s, IsAbsent) + CountWhere(s, IsExcused)
            + CountWhere(s, IsBlank) == |s|
  {
    if |s| > 0 {
      ScoreCounts(s[..|s| - 1]);
    }
  }

  /** Counting 'н' records is taking the length of the absence list. */
  lemma {:induction false} AbsentCountIsAbsences(s: seq<Grade>)
    ensures CountWhere(s, IsAbsent) == |Absences(s)|
  {
    if |s| > 0 {
      AbsentCountIsAbsences(s[..|s| - 1]);
    }
  }

  // ---------------------------------------------------------------------
  // One student's record

  /** A subject's entry: the first average on its rows, its graded records
      and its 'н' records. */
  function SubjectOf(grades: seq<Grade>): SubjectAnalytics
  {
    SubjectAnalytics(FirstAvg(grades), CountWhere(grades, IsGraded), CountWhere(grades, IsAbsent))
  }

  /** The entries of the subjects `ks`. */
  function SubjectsOf(grades: seq<Grade>, ks: seq<string>): map<string, SubjectAnalytics>
  {
    map k | k in ks :: SubjectOf(Select(grades, BySubject, k))
  }

  /** A student's record as the dashboard first builds it, with rank 0. */
  function Analyze(id: string, grades: seq<Grade>): StudentAnalytics
  {
    StudentAnalytics(id, StudentName(id, grades), OverallAverage(grades, FirstOnRows), 0,
                     CountWhere(grades, IsAbsent), SubjectsOf(grades, KeysInOrder(grades, BySubject)))
  }

  /** The body of `Object.entries(gradesByStudent).map(...)` for one
      student: group their records by subject, build each subject's entry,
      collect the subject averages, and take their mean. */
  method AnalyzeStudent(id: string, grades: seq<Grade>) returns (st: StudentAnalytics)
    ensures st == Analyze(id, grades)
  {
    var name := StudentName(id, grades);
    var totalAbsences := CountWhere(grades, IsAbsent);
    var bySubject := GroupBy(grades, BySubject);
    var subjects, avgs := SubjectEntries(grades, bySubject);
    var overall := MeanOf(avgs);
    st := StudentAnalytics(id, name, overall, 0, totalAbsences, subjects);
  }

  /** `Object.fromEntries(...)` over the subject groups, together with the
      `subjectAvgsMap.set` calls made along the way. */
  method SubjectEntries(grades: seq<Grade>, bySubject: Groups)
    returns (subjects: map<string, SubjectAnalytics>, avgs: seq<real>)
    requires bySubject.keys == KeysInOrder(grades, BySubject)
    requires bySubject.members == SelectMap(grades, BySubject)
    ensures subjects == SubjectsOf(grades, bySubject.keys)
    ensures avgs == SubjectAverages(bySubject.keys, grades, FirstOnRows)
  {
    var keys := bySubject.keys;
    subjects := map[];
    avgs := [];
    var i := 0;
    while i < |keys|
      invariant 0 <= i <= |keys|
      invariant subjects == SubjectsOf(grades, keys[..i])
      invariant avgs == SubjectAverages(keys[..i], grades, FirstOnRows)
    {
      var k := keys[i];
      ghost var rows := Select(grades, BySubject, k);
      assert bySubject.members[k] == rows;
      var entry := SubjectOf(bySubject.members[k]);
      SubjectsStep(grades, keys[..i], k);
      PrefixSnoc(keys, i);
      if entry.avgScore.Some? {
        avgs := avgs + [entry.avgScore.value];
      }
      subjects := subjects[k := entry];
      i := i + 1;
    }
    assert keys[..i] == keys;
  }

  /** Adding one subject to the entries and to the collected averages. */
  lemma SubjectsStep(grades: seq<Grade>, ks: seq<string>, k: string)
    ensures SubjectsOf(grades, ks + [k]) == SubjectsOf(grades, ks)[k := SubjectOf(Select(grades, BySubject, k))]
    ensures SubjectAverages(ks + [k], grades, FirstOnRows)
         == SubjectAverages(ks, grades, FirstOnRows)
            + match SubjectOf(Select(grades, BySubject, k)).avgScore
              case Some(v) => [v]
              case None => []
  {
    assert (ks + [k])[..|ks|] == ks;
  }

  /** The sum of the subjects' absence counts over `ks`. */
  function SumAbsences(m: map<string, SubjectAnalytics>, ks: seq<string>): nat
    requires forall k :: k in ks ==> k in m
  {
    if |ks| == 0 then 0 else m[ks[0]].absences + SumAbsences(m, ks[1..])
  }

  lemma {:induction false} SumAbsencesIsSizeSum(grades: seq<Grade>, ks: seq<string>, all: seq<string>)
    requires forall k :: k in ks ==> k in all
    ensures SumAbsences(SubjectsOf(grades, all), ks) == SizeSum(ks, Absences(grades), BySubject)
  {
    if |ks| > 0 {
      var k := ks[0];
      assert k in all;
      SumAbsencesIsSizeSum(grades, ks[1..], all);
      AbsentCountIsAbsences(Select(grades, BySubject, k));
      AbsencesOfSelect(grades, BySubject, k);
    }
  }

  /** A student's absence total is the sum of their subjects' absence
      counts. */
  lemma TotalAbsencesAddUp(id: string, grades: seq<Grade>)
    ensures var st := Analyze(id, grades);
            var ks := KeysInOrder(grades, BySubject);
            (forall k :: k in ks ==> k in st.subjects)
            && st.totalAbsences == SumAbsences(st.subjects, ks)
  {
    var ks := KeysInOrder(grades, BySubject);
    var abs := Absences(grades);
    SumAbsencesIsSizeSum(grades, ks, ks);
    KeysInOrderMembers(grades, BySubject);
    forall g | g in abs ensures KeyOf(g, BySubject) in ks {
      assert g in grades;
    }
    SizeSumCovering(ks, abs, BySubject);
    AbsentCountIsAbsences(grades);
  }

  /** The subjects of a record are exactly the subjects of the student's
      records; a subject's entry describes that subject's records alone. */
  lemma SubjectsOfStudent(id: string, grades: seq<Grade>, subject: string)
    ensures var st := Analyze(id, grades);
            && (subject in st.subjects <==> exists g :: g in grades && g.subject == subject)
            && (subject in st.subjects ==> st.subjects[subject] == SubjectOf(Select(grades, BySubject, subject)))
  {
    KeysInOrderMembers(grades, BySubject);
  }

  /** A subject's average is the first average on its rows, and there is
      none exactly when no row of the subject has one. */
  lemma SubjectAverageFirst(grades: seq<Grade>, subject: string)
    ensures var sel := Select(grades, BySubject, subject);
            var a := SubjectOf(sel).avgScore;
            && (a.None? <==> forall g :: g in grades && g.subject == subject ==> g.avgScore.None?)
            && (a.Some? ==> exists i :: 0 <= i < |sel| && sel[i].avgScore == a
                                      && forall j :: 0 <= j < i ==> sel[j].avgScore.None?)
  {
    var sel := Select(grades, BySubject, subject);
    SelectMembers(grades, BySubject, subject);
    PickedNoneIff(sel, FirstOnRows);
  }

  // ---------------------------------------------------------------------
  // The class list

  /** One record per student, in the order students first appear on the
      sheet. */
  function AnalysesOf(all: seq<Grade>): (r: seq<StudentAnalytics>)
    ensures |r| == |KeysInOrder(all, ByUser)|
  {
    var ks := KeysInOrder(all, ByUser);
    seq(|ks|, i requires 0 <= i < |ks| => Analyze(ks[i], Select(all, ByUser, ks[i])))
  }

  function OverallOf(st: StudentAnalytics): Option<real> { st.overallAvgScore }

  /** The value the rank sort compares: `overallAvgScore ?? 0`. */
  function SortKey(st: StudentAnalytics): real { OptKey(st.overallAvgScore) }

  /** An average as the rank sort reads it, a missing one as 0. */
  function OptKey(o: Option<real>): real { GetOr(o, 0.0) }

  function IdOf(st: StudentAnalytics): string { st.id }

  /** The comparator `(b.overallAvgScore ?? 0) - (a.overallAvgScore ?? 0)`. */
  predicate ByOverallDesc(x: StudentAnalytics, y: StudentAnalytics)
  {
    SortKey(x) >= SortKey(y)
  }

  /** The loop's initial `lastScore`, as the value it is compared with. */
  const RankSentinel: Option<real> := Some(-1.0)

  /** `student.rank = rank`. */
  function SetRank(st: StudentAnalytics, rank: nat): StudentAnalytics
  {
    st.(rank := rank)
  }

  /** The records with the ranks the loop writes into them; nothing but the
      rank changes. The loop compares the averages themselves, so a missing
      average differs from 0. */
  function WithRanks(s: seq<StudentAnalytics>): (r: seq<StudentAnalytics>)
    ensures |r| == |s|
    ensures forall i :: 0 <= i < |s| ==>
              && r[i].id == s[i].id && r[i].name == s[i].name
              && r[i].overallAvgScore == s[i].overallAvgScore
              && r[i].totalAbsences == s[i].totalAbsences && r[i].subjects == s[i].subjects
  {
    var r := Ranked(s, OverallOf, SetRank, RankSentinel);
    assert forall i :: 0 <= i < |s| ==> r[i] == SetRank(s[i], RankAt(Project(s, OverallOf), RankSentinel, i)) by {
      forall i | 0 <= i < |s| ensures r[i] == SetRank(s[i], RankAt(Project(s, OverallOf), RankSentinel, i)) {
        RankedAt(s, OverallOf, SetRank, RankSentinel, i);
      }
    }
    r
  }

  /** `compare(a, b)` of the display sort: last names first, then full
      names, both with the collation `cmp`. */
  function DisplayCompare(cmp: (string, string) -> int, x: StudentAnalytics, y: StudentAnalytics): int
  {
    var c := cmp(LastName(x.name), LastName(y.name));
    if c != 0 then c else cmp(x.name, y.name)
  }

  function DisplayOrder(cmp: (string, string) -> int): (StudentAnalytics, StudentAnalytics) -> bool
  {
    (x: StudentAnalytics, y: StudentAnalytics) => DisplayCompare(cmp, x, y) <= 0
  }

  /** The records after the rank sort and the rank loop. */
  function RankedStudents(all: seq<Grade>): seq<StudentAnalytics>
  {
    WithRanks(StableSort(AnalysesOf(all), ByOverallDesc))
  }

  /** `studentAnalytics`: nothing for an empty sheet, otherwise the ranked
      records in display order. */
  function DashboardOf(all: seq<Grade>, cmp: (string, string) -> int): seq<StudentAnalytics>
  {
    if |all| == 0 then [] else StableSort(RankedStudents(all), DisplayOrder(cmp))
  }

  /** The `useMemo` computing `studentAnalytics`. */
  method BuildDashboard(all: seq<Grade>, cmp: (string, string) -> int) returns (result: seq<StudentAnalytics>)
    ensures result == DashboardOf(all, cmp)
    ensures |all| == 0 ==> result == []
  {
    if |all| == 0 {
      return [];
    }
    var groups := GroupBy(all, ByUser);
    var data := AnalyzeAll(all, groups);
    var a := new StudentAnalytics[|data|](j requires 0 <= j < |data| => data[j]);
    assert a[..] == data;
    InsertionSort(a, ByOverallDesc);
    RankInPlace(a, OverallOf, SetRank, RankSentinel);
    InsertionSort(a, DisplayOrder(cmp));
    result := a[..];
  }

  /** `Object.entries(gradesByStudent).map(...)`. */
  method AnalyzeAll(all: seq<Grade>, groups: Groups) returns (data: seq<StudentAnalytics>)
    requires groups.keys == KeysInOrder(all, ByUser)
    requires groups.members == SelectMap(all, ByUser)
    ensures data == AnalysesOf(all)
  {
    ghost var full := AnalysesOf(all);
    data := [];
    var i := 0;
    while i < |groups.keys|
      invariant 0 <= i <= |groups.keys|
      invariant data == full[..i]
    {
      var id := groups.keys[i];
      var st := AnalyzeStudent(id, groups.members[id]);
      assert st == full[i];
      PrefixSnoc(full, i);
      data := data + [st];
      i := i + 1;
    }
    assert full[..i] == full;
  }

  lemma WithRanksAt(s: seq<StudentAnalytics>, i: nat)
    requires i < |s|
    ensures WithRanks(s)[i] == s[i].(rank := RankAt(Project(s, OverallOf), RankSentinel, i))
  {
    RankedAt(s, OverallOf, SetRank, RankSentinel, i);
  }

  // ---------------------------------------------------------------------
  // One record per student

  lemma AnalysesIds(all: seq<Grade>)
    ensures Project(AnalysesOf(all), IdOf) == KeysInOrder(all, ByUser)
  {
  }

  lemma WithRanksKeeps(s: seq<StudentAnalytics>)
    ensures Project(WithRanks(s), IdOf) == Project(s, IdOf)
    ensures Project(WithRanks(s), OverallOf) == Project(s, OverallOf)
  {
    var r := WithRanks(s);
    assert forall i :: 0 <= i < |s| ==> r[i].id == s[i].id && r[i].overallAvgScore == s[i].overallAvgScore;
  }

  /** The display sort only rearranges the ranked records: no record is
      dropped, duplicated or changed, so every rank survives it. */
  lemma DashboardPermutation(all: seq<Grade>, cmp: (string, string) -> int)
    requires |all| > 0
    ensures multiset(DashboardOf(all, cmp)) == multiset(RankedStudents(all))
  {
    SortPermutes(RankedStudents(all), DisplayOrder(cmp));
  }

  /** The ids on the sheet are the student ids of the records, rearranged. */
  lemma DashboardIds(all: seq<Grade>, cmp: (string, string) -> int)
    requires |all| > 0
    ensures multiset(Project(DashboardOf(all, cmp), IdOf)) == multiset(KeysInOrder(all, ByUser))
  {
    var analyses := AnalysesOf(all);
    var sorted := StableSort(analyses, ByOverallDesc);
    AnalysesIds(all);
    SortProjects(analyses, ByOverallDesc, IdOf);
    WithRanksKeeps(sorted);
    SortProjects(WithRanks(sorted), DisplayOrder(cmp), IdOf);
  }

  /** Exactly one record per student id on the sheet. */
  lemma DashboardOnePerStudent(all: seq<Grade>, cmp: (string, string) -> int)
    ensures Distinct(Project(DashboardOf(all, cmp), IdOf))
    ensures forall id :: id in Project(DashboardOf(all, cmp), IdOf) <==> exists g :: g in all && g.userId == id
  {
    var ks := KeysInOrder(all, ByUser);
    var ids := Project(DashboardOf(all, cmp), IdOf);
    KeysInOrderMembers(all, ByUser);
    if |all| == 0 {
      assert ids == [];
    } else {
      DashboardIds(all, cmp);
      DistinctPermutation(ids, ks);
      forall id ensures id in ids <==> id in ks {
        assert id in ids <==> id in multiset(ids);
        assert id in ks <==> id in multiset(ks);
      }
    }
  }

  /** Every record is the student's analysis with the rank the loop gave
      it: their name, overall average, absence total and subjects all come
      from their own records. */
  lemma DashboardRecords(all: seq<Grade>, cmp: (string, string) -> int, i: nat)
    requires i < |DashboardOf(all, cmp)|
    ensures var st := DashboardOf(all, cmp)[i];
            st == Analyze(st.id, Select(all, ByUser, st.id)).(rank := st.rank)
  {
    var analyses := AnalysesOf(all);
    var sorted := StableSort(analyses, ByOverallDesc);
    var shown := DashboardOf(all, cmp);
    AnalysesAnalyzed(all);
    SortPermutes(analyses, ByOverallDesc);
    AnalysesPermuted(all, sorted, analyses);
    RerankedAnalyzed(all, sorted);
    DashboardPermutation(all, cmp);
    AnalysesPermuted(all, shown, WithRanks(sorted));
    assert shown[i] in shown;
  }

  lemma AnalysesAnalyzed(all: seq<Grade>)
    ensures forall x :: x in AnalysesOf(all) ==> AnalysisOf(all, x)
  {
    var analyses := AnalysesOf(all);
    forall x | x in analyses ensures AnalysisOf(all, x) {
      var m :| 0 <= m < |analyses| && analyses[m] == x;
    }
  }

  lemma RerankedAnalyzed(all: seq<Grade>, sorted: seq<StudentAnalytics>)
    requires forall x :: x in sorted ==> AnalysisOf(all, x)
    ensures forall x :: x in WithRanks(sorted) ==> AnalysisOf(all, x)
  {
    var ranked := WithRanks(sorted);
    forall x | x in ranked ensures AnalysisOf(all, x) {
      var j :| 0 <= j < |ranked| && ranked[j] == x;
      WithRanksAt(sorted, j);
      assert sorted[j] in sorted;
    }
  }

  /** `st` is the analysis of its student's records with some rank. */
  ghost predicate AnalysisOf(all: seq<Grade>, st: StudentAnalytics)
  {
    st == Analyze(st.id, Select(all, ByUser, st.id)).(rank := st.rank)
  }

  lemma AnalysesPermuted(all: seq<Grade>, xs: seq<StudentAnalytics>, ys: seq<StudentAnalytics>)
    requires multiset(xs) == multiset(ys)
    requires forall y :: y in ys ==> AnalysisOf(all, y)
    ensures forall x :: x in xs ==> AnalysisOf(all, x)
  {
    forall x | x in xs ensures AnalysisOf(all, x) {
      assert x in multiset(xs);
    }
  }


  // ---------------------------------------------------------------------
  // Ranks

  lemma ByOverallDescTotal()
    ensures TotalPreorder(ByOverallDesc)
  {
  }

  /** The comparator as written, a missing average counting as 0. */
  function OverallCompare(a: StudentAnalytics, b: StudentAnalytics): real
  {
    GetOr(b.overallAvgScore, 0.0) - GetOr(a.overallAvgScore, 0.0)
  }

  /** A record may stay in front of another exactly when the comparator is
      not positive; the comparator changes sign when its arguments are
      swapped, and a missing average compares equal to an average of 0. */
  lemma ByOverallDescIsCompare(a: StudentAnalytics, b: StudentAnalytics)
    ensures ByOverallDesc(a, b) <==> OverallCompare(a, b) <= 0.0
    ensures OverallCompare(a, b) < 0.0 <==> OverallCompare(b, a) > 0.0
    ensures a.overallAvgScore.None? && b.overallAvgScore == Some(0.0) ==> OverallCompare(a, b) == 0.0
  {
  }

  /** The averages the rank loop compares and the ranks it gives, read off
      the ranked records. */
  lemma RanksOfRanked(all: seq<Grade>)
    ensures var r := RankedStudents(all);
            forall i :: 0 <= i < |r| ==> r[i].rank == RankAt(Project(r, OverallOf), RankSentinel, i)
  {
    var sorted := StableSort(AnalysesOf(all), ByOverallDesc);
    WithRanksKeeps(sorted);
    forall i | 0 <= i < |sorted| {
      WithRanksAt(sorted, i);
    }
  }

  /** The rank sort puts higher averages first, a missing average counting
      as 0. */
  lemma RankedSortedDesc(all: seq<Grade>)
    ensures var r := RankedStudents(all);
            forall i, j :: 0 <= i < j < |r| ==> SortKey(r[i]) >= SortKey(r[j])
  {
    var sorted := StableSort(AnalysesOf(all), ByOverallDesc);
    ByOverallDescTotal();
    SortSorted(AnalysesOf(all), ByOverallDesc);
    var r := WithRanks(sorted);
    forall i, j | 0 <= i < j < |r| ensures SortKey(r[i]) >= SortKey(r[j]) {
      assert ByOverallDesc(sorted[i], sorted[j]);
    }
  }

  /** Ranks never decrease in rank order. */
  lemma RankedRanksNonDecreasing(all: seq<Grade>, i: nat, j: nat)
    requires i <= j < |RankedStudents(all)|
    ensures RankedStudents(all)[i].rank <= RankedStudents(all)[j].rank
  {
    RanksOfRanked(all);
    RanksNonDecreasing(Project(RankedStudents(all), OverallOf), RankSentinel, i, j);
  }

  /** Students with equal averages share a rank, unless that average is 0:
      a student without an average sorts like 0 and may sit between them
      (see `MissingAverageSplitsTie`). */
  lemma RankedTiesShareRank(all: seq<Grade>, i: nat, j: nat)
    requires i <= j < |RankedStudents(all)|
    requires RankedStudents(all)[i].overallAvgScore == RankedStudents(all)[j].overallAvgScore
    requires SortKey(RankedStudents(all)[i]) != 0.0
    ensures RankedStudents(all)[i].rank == RankedStudents(all)[j].rank
  {
    var r := RankedStudents(all);
    var ks := Project(r, OverallOf);
    RankedKeys(all);
    assert ks[i] == ks[j] && OptKey(ks[i]) != 0.0;
    forall m | i <= m <= j ensures ks[m] == ks[i] {
      assert OptKey(ks[i]) >= OptKey(ks[m]) >= OptKey(ks[j]);
    }
    RunSharesRank(ks, RankSentinel, i, j);
  }

  /** The averages down the ranked list, best first as the sort reads them,
      and the rank each record carries as the loop computes it from them. */
  lemma RankedKeys(all: seq<Grade>)
    ensures var r := RankedStudents(all);
            var ks := Project(r, OverallOf);
            && SortedDesc(ks, OptKey)
            && forall i :: 0 <= i < |r| ==> r[i].rank == RankAt(ks, RankSentinel, i)
  {
    var r := RankedStudents(all);
    var ks := Project(r, OverallOf);
    RanksOfRanked(all);
    RankedSortedDesc(all);
    forall a, b | 0 <= a < b < |ks| ensures OptKey(ks[a]) >= OptKey(ks[b]) {
      assert SortKey(r[a]) >= SortKey(r[b]);
    }
  }



  /** No student lacks an average while another averages exactly 0: the one
      case in which the loop tells apart two students the sort treats
      alike. */
  predicate NoZeroBesideMissing(r: seq<StudentAnalytics>)
  {
    forall a, b :: 0 <= a < |r| && 0 <= b < |r| && r[a].overallAvgScore.None? ==> r[b].overallAvgScore != Some(0.0)
  }

  /** Competition ranking: when no average on the sheet is negative, and no
      student lacks an average while another averages 0, a student's rank is
      one more than the number of students with a strictly higher average,
      a missing average counting as 0. */
  lemma RankedCompetition(all: seq<Grade>, i: nat)
    requires forall g :: g in all && g.avgScore.Some? ==> 0.0 <= g.avgScore.value
    requires NoZeroBesideMissing(RankedStudents(all))
    requires i < |RankedStudents(all)|
    ensures var r := RankedStudents(all);
            r[i].rank == 1 + CountAbove(r, SortKey, SortKey(r[i]))
  {
    var r := RankedStudents(all);
    var ks := Project(r, OverallOf);
    RankedKeys(all);
    forall m | 0 <= m < |r| ensures ks[m] != RankSentinel {
      if r[m].overallAvgScore.Some? {
        RankedRecord(all, m);
        var grades := Select(all, ByUser, r[m].id);
        SelectMembers(all, ByUser, r[m].id);
        OverallAtLeast(grades, FirstOnRows, 0.0);
      }
    }
    forall a, b | 0 <= a < |ks| && 0 <= b < |ks| && OptKey(ks[a]) == OptKey(ks[b]) ensures ks[a] == ks[b] {
      assert r[a].overallAvgScore.None? ==> r[b].overallAvgScore != Some(0.0);
      assert r[b].overallAvgScore.None? ==> r[a].overallAvgScore != Some(0.0);
    }
    CompetitionRank(ks, OptKey, RankSentinel, i);
    CountAboveProject(r, OverallOf, OptKey, SortKey, SortKey(r[i]));
  }

  /** A ranked record is the student's analysis with a rank. */
  lemma RankedRecord(all: seq<Grade>, i: nat)
    requires i < |RankedStudents(all)|
    ensures var st := RankedStudents(all)[i];
            st == Analyze(st.id, Select(all, ByUser, st.id)).(rank := st.rank)
  {
    var analyses := AnalysesOf(all);
    var sorted := StableSort(analyses, ByOverallDesc);
    SortPermutes(analyses, ByOverallDesc);
    assert sorted[i] in multiset(analyses);
    var m :| 0 <= m < |analyses| && analyses[m] == sorted[i];
  }

  /** The loop compares averages, not sort keys: a student without an
      average between two students averaging 0 breaks their tie, although
      the sort treats all three alike (ranks 1, 2, 3). */
  lemma MissingAverageSplitsTie()
    ensures var ks := [Some(0.0), None, Some(0.0)];
            && OptKey(ks[0]) == OptKey(ks[1]) == OptKey(ks[2])
            && RankAt(ks, RankSentinel, 0) == 1
            && RankAt(ks, RankSentinel, 1) == 2
            && RankAt(ks, RankSentinel, 2) == 3
  {
  }

  /** Anywhere in the list, a missing average between two averages of 0
      gives the student after it a new rank, one more than the student
      without an average, who has a new rank too: the three students hold
      three different ranks although the sort treats them alike. */
  lemma MissingAverageBreaksRun(ks: seq<Option<real>>, p: nat)
    requires p + 2 < |ks|
    requires ks[p] == Some(0.0) && ks[p + 1] == None && ks[p + 2] == Some(0.0)
    ensures RankAt(ks, RankSentinel, p) <= p + 1
    ensures RankAt(ks, RankSentinel, p + 1) == p + 2
    ensures RankAt(ks, RankSentinel, p + 2) == p + 3
  {
    RankStep(ks, RankSentinel, p + 1);
    RankStep(ks, RankSentinel, p + 2);
  }

  // ---------------------------------------------------------------------
  // Display order

  /** What `localeCompare` is taken to be: the sign flips when the arguments
      are swapped, and "not after" is transitive. */
  ghost predicate Comparator(cmp: (string, string) -> int)
  {
    && (forall a, b :: cmp(a, b) < 0 <==> cmp(b, a) > 0)
    && (forall a, b, c :: cmp(a, b) <= 0 && cmp(b, c) <= 0 ==> cmp(a, c) <= 0)
  }

  lemma ComparatorFacts(cmp: (string, string) -> int, a: string, b: string, c: string)
    requires Comparator(cmp)
    ensures cmp(a, b) == 0 ==> cmp(b, a) == 0
    ensures cmp(a, b) < 0 && cmp(b, c) <= 0 ==> cmp(a, c) < 0
    ensures cmp(a, b) <= 0 && cmp(b, c) < 0 ==> cmp(a, c) < 0
    ensures cmp(a, b) == 0 && cmp(b, c) == 0 ==> cmp(a, c) == 0
  {
  }

  /** With a consistent collation the display comparator changes sign when
      its arguments are swapped, and it calls two students equal exactly
      when the collation calls both their last names and their full names
      equal. */
  lemma DisplayCompareSwap(cmp: (string, string) -> int, x: StudentAnalytics, y: StudentAnalytics)
    requires Comparator(cmp)
    ensures DisplayCompare(cmp, x, y) < 0 <==> DisplayCompare(cmp, y, x) > 0
    ensures DisplayCompare(cmp, x, y) == 0
            <==> cmp(LastName(x.name), LastName(y.name)) == 0 && cmp(x.name, y.name) == 0
  {
    ComparatorFacts(cmp, LastName(x.name), LastName(y.name), LastName(x.name));
    ComparatorFacts(cmp, LastName(y.name), LastName(x.name), LastName(y.name));
  }

  /** Last name, then full name, is a consistent order when the collation
      is. */
  lemma DisplayOrderTotal(cmp: (string, string) -> int)
    requires Comparator(cmp)
    ensures TotalPreorder(DisplayOrder(cmp))
  {
    var le := DisplayOrder(cmp);
    forall x, y ensures le(x, y) || le(y, x) {
      ComparatorFacts(cmp, LastName(x.name), LastName(y.name), LastName(x.name));
      ComparatorFacts(cmp, x.name, y.name, x.name);
    }
    forall x, y, z | le(x, y) && le(y, z) ensures le(x, z) {
      ComparatorFacts(cmp, LastName(x.name), LastName(y.name), LastName(z.name));
      ComparatorFacts(cmp, x.name, y.name, z.name);
    }
  }

  /** With a consistent collation the dashboard is in display order. */
  lemma DashboardSorted(all: seq<Grade>, cmp: (string, string) -> int)
    requires Comparator(cmp)
    ensures SortedBy(DashboardOf(all, cmp), DisplayOrder(cmp))
  {
    if |all| > 0 {
      DisplayOrderTotal(cmp);
      SortSorted(RankedStudents(all), DisplayOrder(cmp));
    }
  }

  /** Students whose names the display order cannot tell apart stay in rank
      order. */
  lemma DashboardStable(all: seq<Grade>, cmp: (string, string) -> int, y: StudentAnalytics)
    requires Comparator(cmp)
    requires |all| > 0
    ensures EqualTo(DashboardOf(all, cmp), y, DisplayOrder(cmp)) == EqualTo(RankedStudents(all), y, DisplayOrder(cmp))
  {
    DisplayOrderTotal(cmp);
    SortStable(RankedStudents(all), DisplayOrder(cmp), y);
  }
}
