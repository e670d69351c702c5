/** The class rating of the per-student view: every student's overall
    average (the mean of the last average the sheet gives for each of their
    subjects), students without one left out, the rest sorted best first and
    ranked with the shared rank loop; the signed-in student is then looked
    up in the ranked list. */
module GradesRating {
  import opened Records
  import opened Grouping
  import opened Sorting
  import opened Ranking
  import opened Averages

  datatype UserAverage = UserAverage(id: string, name: string, avg: real)

  datatype RankedUser = RankedUser(id: string, name: string, avg: real, rank: nat)

  /** `{ rankedUsers, currentUserRank }`. */
  datatype Rating = Rating(ranked: seq<RankedUser>, current: Option<RankedUser>)

  /** The loop's initial `lastScore`. */
  const NoScore: real := -1.0

  function AvgOf(u: UserAverage): real { u.avg }

  function IdOf(u: UserAverage): string { u.id }

  function RankedAvg(u: RankedUser): real { u.avg }

  function RankedId(u: RankedUser): string { u.id }

  function Id(x: real): real { x }

  /** One student's entry, or none when no row of theirs has an average. */
  function UserRow(all: seq<Grade>, id: string): Option<UserAverage>
  {
    var grades := Select(all, ByUser, id);
    match OverallAverage(grades, LastOnRows)
    case Some(v) => Some(UserAverage(id, StudentName(id, grades), v))
    case None => None
  }

  /** The entries of the students `ks` that have an average, in the order of
      `ks` (`map` then `filter(u => u.avg !== undefined)`). */
  function Rows(all: seq<Grade>, ks: seq<string>): seq<UserAverage>
  {
    if |ks| == 0 then []
    else
      Rows(all, ks[..|ks| - 1])
      + match UserRow(all, ks[|ks| - 1])
        case Some(u) => [u]
        case None => []
  }

  /** The entries in the order the students first appear on the sheet. */
  function RatingRows(all: seq<Grade>): seq<UserAverage>
  {
    Rows(all, KeysInOrder(all, ByUser))
  }

  /** The comparator `(b.avg ?? 0) - (a.avg ?? 0)`: `a` may stay in front of
      `b` when its average is not lower. */
  predicate AvgDesc(a: UserAverage, b: UserAverage)
  {
    a.avg >= b.avg
  }

  /** An entry with its rank attached. */
  function ToRanked(u: UserAverage, rank: nat): RankedUser
  {
    RankedUser(u.id, u.name, u.avg, rank)
  }

  /** The sorted entries with the ranks the loop gives them. */
  function RankUsers(sorted: seq<UserAverage>): (r: seq<RankedUser>)
    ensures |r| == |sorted|
    ensures forall i :: 0 <= i < |r| ==> r[i].id == sorted[i].id && r[i].name == sorted[i].name
                                          && r[i].avg == sorted[i].avg
  {
    var r := Ranked(sorted, AvgOf, ToRanked, NoScore);
    assert forall i :: 0 <= i < |r| ==> r[i].id == sorted[i].id && r[i].name == sorted[i].name
                                         && r[i].avg == sorted[i].avg by {
      forall i | 0 <= i < |r| ensures r[i].id == sorted[i].id && r[i].name == sorted[i].name
                                      && r[i].avg == sorted[i].avg {
        RankedAt(sorted, AvgOf, ToRanked, NoScore, i);
      }
    }
    r
  }

  /** `ranked.find(u => u.id === userId)`. */
  function FindUser(ranked: seq<RankedUser>, id: string): (r: Option<RankedUser>)
    ensures r.None? <==> forall i :: 0 <= i < |ranked| ==> ranked[i].id != id
    ensures r.Some? ==> exists i :: 0 <= i < |ranked| && ranked[i] == r.value && r.value.id == id
                                    && forall j :: 0 <= j < i ==> ranked[j].id != id
  {
    if |ranked| == 0 then None
    else if ranked[0].id == id then Some(ranked[0])
    else
      var r := FindUser(ranked[1..], id);
      assert r.Some? ==> exists i :: 0 <= i < |ranked| - 1 && ranked[1..][i] == r.value
                                     && forall j :: 0 <= j < i ==> ranked[1..][j].id != id;
      r
  }

  /** The rating for a sheet and a signed-in user: nothing when the sheet is
      empty or nobody is signed in. */
  function RatingOf(all: seq<Grade>, userId: Option<string>): Rating
  {
    if |all| == 0 || userId.None? || userId.value == "" then Rating([], None)
    else
      var ranked := RankUsers(StableSort(RatingRows(all), AvgDesc));
      Rating(ranked, FindUser(ranked, userId.value))
  }

  /** The `useMemo` that computes `rankedUsers` and `currentUserRank`. */
  method ComputeRating(all: seq<Grade>, userId: Option<string>) returns (r: Rating)
    ensures r == RatingOf(all, userId)
    ensures |all| == 0 || userId.None? ==> r.ranked == [] && r.current.None?
  {
    if |all| == 0 || userId.None? || userId.value == "" {
      return Rating([], None);
    }
    var groups := GroupBy(all, ByUser);
    var rows := UserAverages(all, groups);
    var ranked := SortAndRank(rows);
    r := Rating(ranked, FindUser(ranked, userId.value));
  }

  /** `userAverages.sort(...)` followed by the rank loop. */
  method SortAndRank(rows: seq<UserAverage>) returns (ranked: seq<RankedUser>)
    ensures ranked == RankUsers(StableSort(rows, AvgDesc))
  {
    var a := new UserAverage[|rows|](j requires 0 <= j < |rows| => rows[j]);
    assert a[..] == rows;
    InsertionSort(a, AvgDesc);
    ranked := RankInto(a[..], AvgOf, ToRanked, NoScore);
  }

  /** `Object.entries(gradesByUser).map(...).filter(...)`: one entry per
      group that has an average. */
  method UserAverages(all: seq<Grade>, groups: Groups) returns (rows: seq<UserAverage>)
    requires groups.keys == KeysInOrder(all, ByUser)
    requires groups.members == SelectMap(all, ByUser)
    ensures rows == RatingRows(all)
  {
    rows := [];
    var i := 0;
    while i < |groups.keys|
      invariant 0 <= i <= |groups.keys|
      invariant rows == Rows(all, groups.keys[..i])
    {
      var id := groups.keys[i];
      var grades := groups.members[id];
      var avg := OverallAverage(grades, LastOnRows);
      if avg.Some? {
        rows := rows + [UserAverage(id, StudentName(id, grades), avg.value)];
      }
      assert groups.keys[..i + 1][..i] == groups.keys[..i];
      i := i + 1;
    }
    assert groups.keys[..i] == groups.keys;
  }

  // ---------------------------------------------------------------------
  // Who is in the rating

  /** A student has an entry exactly when one of their rows carries a
      subject average. */
  lemma UserRowSomeIff(all: seq<Grade>, id: string)
    ensures UserRow(all, id).Some? <==> exists g :: g in all && g.userId == id && g.avgScore.Some?
    ensures UserRow(all, id).Some? ==> UserRow(all, id).value.id == id
  {
    var grades := Select(all, ByUser, id);
    OverallNoneIff(grades, LastOnRows);
    SelectMembers(all, ByUser, id);
  }

  lemma {:induction false} RowsMembers(all: seq<Grade>, ks: seq<string>)
    ensures forall u :: u in Rows(all, ks) <==> u.id in ks && UserRow(all, u.id) == Some(u)
  {
    if |ks| > 0 {
      var init, k := ks[..|ks| - 1], ks[|ks| - 1];
      RowsMembers(all, init);
      assert ks == init + [k];
      UserRowSomeIff(all, k);
    }
  }

  lemma {:induction false} RowsIdsDistinct(all: seq<Grade>, ks: seq<string>)
    requires Distinct(ks)
    ensures Distinct(Project(Rows(all, ks), IdOf))
  {
    if |ks| > 0 {
      var init, k := ks[..|ks| - 1], ks[|ks| - 1];
      assert Distinct(init);
      RowsIdsDistinct(all, init);
      var rs := Rows(all, init);
      match UserRow(all, k)
      case Some(u) =>
        RowsMembers(all, init);
        UserRowSomeIff(all, k);
        var ids := Project(rs, IdOf);
        assert k !in ids by {
          forall i | 0 <= i < |rs| ensures ids[i] != k {
            assert rs[i] in rs;
          }
        }
        DistinctSnoc(ids, k);
        assert Project(rs + [u], IdOf) == ids + [k];
      case None =>
    }
  }

  // ---------------------------------------------------------------------
  // Properties of the rating

  lemma AvgDescTotal()
    ensures TotalPreorder(AvgDesc)
  {
  }

  /** The comparator as written; every averaged entry has an average, so the
      `?? 0` never applies. */
  function AvgCompare(a: UserAverage, b: UserAverage): real
  {
    b.avg - a.avg
  }

  /** `a` may stay in front of `b` exactly when the comparator is not
      positive, the comparator changes sign when its arguments are swapped,
      and it is zero exactly for equal averages. */
  lemma AvgDescIsCompare(a: UserAverage, b: UserAverage)
    ensures AvgDesc(a, b) <==> AvgCompare(a, b) <= 0.0
    ensures AvgCompare(a, b) < 0.0 <==> AvgCompare(b, a) > 0.0
    ensures AvgCompare(a, b) == 0.0 <==> a.avg == b.avg
  {
  }

  /** Every ranked student has a sheet average, and their entry is the one
      the sheet determines: their id, their name and their overall average. */
  lemma RatingOnlyAveraged(all: seq<Grade>, userId: Option<string>, i: nat)
    requires i < |RatingOf(all, userId).ranked|
    ensures var u := RatingOf(all, userId).ranked[i];
            UserRow(all, u.id) == Some(UserAverage(u.id, u.name, u.avg))
            && exists g :: g in all && g.userId == u.id && g.avgScore.Some?
  {
    var rows := RatingRows(all);
    var sorted := StableSort(rows, AvgDesc);
    var u := RatingOf(all, userId).ranked[i];
    SortPermutes(rows, AvgDesc);
    assert sorted[i] in multiset(rows);
    RowsMembers(all, KeysInOrder(all, ByUser));
    assert sorted[i] == UserAverage(u.id, u.name, u.avg);
    UserRowSomeIff(all, u.id);
  }

  /** Once the sheet is non-empty and someone is signed in, every student with
      an average on the sheet is ranked. */
  lemma RatingEveryAveraged(all: seq<Grade>, userId: Option<string>, g: Grade)
    requires |all| > 0 && userId.Some? && userId.value != ""
    requires g in all && g.avgScore.Some?
    ensures exists i :: 0 <= i < |RatingOf(all, userId).ranked| && RatingOf(all, userId).ranked[i].id == g.userId
  {
    var rows := RatingRows(all);
    var sorted := StableSort(rows, AvgDesc);
    UserRowSomeIff(all, g.userId);
    var u := UserRow(all, g.userId).value;
    KeysInOrderMembers(all, ByUser);
    assert KeyOf(g, ByUser) == g.userId;
    RowsMembers(all, KeysInOrder(all, ByUser));
    assert u in rows;
    SortPermutes(rows, AvgDesc);
    assert u in multiset(sorted);
    var i :| 0 <= i < |sorted| && sorted[i] == u;
    assert RatingOf(all, userId).ranked[i].id == g.userId;
  }

  /** No student is ranked twice. */
  lemma RatingIdsDistinct(all: seq<Grade>, userId: Option<string>)
    ensures Distinct(Project(RatingOf(all, userId).ranked, RankedId))
  {
    var r := RatingOf(all, userId);
    if r.ranked != [] {
      var rows := RatingRows(all);
      var sorted := StableSort(rows, AvgDesc);
      RowsIdsDistinct(all, KeysInOrder(all, ByUser));
      SortProjects(rows, AvgDesc, IdOf);
      DistinctPermutation(Project(sorted, IdOf), Project(rows, IdOf));
      assert Project(r.ranked, RankedId) == Project(sorted, IdOf);
    }
  }

  /** The rating lists the students best first. */
  lemma RatingSortedDesc(all: seq<Grade>, userId: Option<string>)
    ensures var r := RatingOf(all, userId).ranked;
            forall i, j :: 0 <= i < j < |r| ==> r[i].avg >= r[j].avg
  {
    if RatingOf(all, userId).ranked != [] {
      AvgDescTotal();
      SortSorted(RatingRows(all), AvgDesc);
    }
  }

  /** The averages the rank loop compares, read off the ranked list. */
  lemma RankedAvgs(all: seq<Grade>, userId: Option<string>)
    requires |all| > 0 && userId.Some? && userId.value != ""
    ensures Project(RatingOf(all, userId).ranked, RankedAvg)
         == Project(StableSort(RatingRows(all), AvgDesc), AvgOf)
    ensures forall i :: 0 <= i < |RatingOf(all, userId).ranked| ==>
              RatingOf(all, userId).ranked[i].rank
              == RankAt(Project(RatingOf(all, userId).ranked, RankedAvg), NoScore, i)
  {
    RankUsersKeys(StableSort(RatingRows(all), AvgDesc));
  }

  /** Ranking keeps the averages in order and attaches the loop's ranks. */
  lemma RankUsersKeys(sorted: seq<UserAverage>)
    ensures Project(RankUsers(sorted), RankedAvg) == Project(sorted, AvgOf)
    ensures forall i :: 0 <= i < |sorted| ==>
              RankUsers(sorted)[i].rank == RankAt(Project(sorted, AvgOf), NoScore, i)
  {
    var r := RankUsers(sorted);
    forall i | 0 <= i < |sorted|
      ensures Project(r, RankedAvg)[i] == Project(sorted, AvgOf)[i]
      ensures r[i].rank == RankAt(Project(sorted, AvgOf), NoScore, i)
    {
      RankedAt(sorted, AvgOf, ToRanked, NoScore, i);
    }
  }

  /** Ranks never decrease down the list. */
  lemma RatingRanksNonDecreasing(all: seq<Grade>, userId: Option<string>, i: nat, j: nat)
    requires i <= j < |RatingOf(all, userId).ranked|
    ensures RatingOf(all, userId).ranked[i].rank <= RatingOf(all, userId).ranked[j].rank
  {
    RankedAvgs(all, userId);
    RanksNonDecreasing(Project(RatingOf(all, userId).ranked, RankedAvg), NoScore, i, j);
  }

  /** The averages down the rating, best first, and the rank each entry
      carries as the rank loop computes it from them. */
  lemma RatingKeys(all: seq<Grade>, userId: Option<string>)
    ensures var r := RatingOf(all, userId).ranked;
            var ks := Project(r, RankedAvg);
            && SortedDesc(ks, Id)
            && forall i :: 0 <= i < |r| ==> r[i].rank == RankAt(ks, NoScore, i)
  {
    var r := RatingOf(all, userId).ranked;
    var ks := Project(r, RankedAvg);
    if r != [] {
      RankedAvgs(all, userId);
    }
    RatingSortedDesc(all, userId);
    forall a, b | 0 <= a < b < |ks| ensures Id(ks[a]) >= Id(ks[b]) {
      assert r[a].avg >= r[b].avg;
    }
  }

  /** Students with equal averages share a rank. */
  lemma RatingTiesShareRank(all: seq<Grade>, userId: Option<string>, i: nat, j: nat)
    requires i <= j < |RatingOf(all, userId).ranked|
    requires RatingOf(all, userId).ranked[i].avg == RatingOf(all, userId).ranked[j].avg
    ensures RatingOf(all, userId).ranked[i].rank == RatingOf(all, userId).ranked[j].rank
  {
    var r := RatingOf(all, userId).ranked;
    var ks := Project(r, RankedAvg);
    RatingKeys(all, userId);
    assert ks[i] == ks[j];
    forall m | i <= m <= j ensures ks[m] == ks[i] {
      assert Id(ks[i]) >= Id(ks[m]) >= Id(ks[j]);
    }
    RunSharesRank(ks, NoScore, i, j);
  }

  /** Competition ranking: when no average on the sheet is negative, a
      student's rank is one more than the number of ranked students with a
      strictly higher average (so the best students have rank 1). */
  lemma RatingCompetition(all: seq<Grade>, userId: Option<string>, i: nat)
    requires forall g :: g in all && g.avgScore.Some? ==> 0.0 <= g.avgScore.value
    requires i < |RatingOf(all, userId).ranked|
    ensures var r := RatingOf(all, userId).ranked;
            r[i].rank == 1 + CountAbove(r, RankedAvg, r[i].avg)
  {
    var r := RatingOf(all, userId).ranked;
    var ks := Project(r, RankedAvg);
    RatingKeys(all, userId);
    forall m | 0 <= m < |r| ensures 0.0 <= r[m].avg {
      RatingOnlyAveraged(all, userId, m);
      var grades := Select(all, ByUser, r[m].id);
      SelectMembers(all, ByUser, r[m].id);
      OverallAtLeast(grades, LastOnRows, 0.0);
    }
    CompetitionRank(ks, Id, NoScore, i);
    CountAboveProject(r, RankedAvg, Id, RankedAvg, r[i].avg);
  }

  /** The signed-in student's entry is their row in the rating, if they are
      ranked at all. */
  lemma RatingCurrent(all: seq<Grade>, userId: Option<string>)
    requires userId.Some?
    ensures var r := RatingOf(all, userId);
            && (r.current.Some? <==> exists i :: 0 <= i < |r.ranked| && r.ranked[i].id == userId.value)
            && (r.current.Some? ==> r.current.value in r.ranked && r.current.value.id == userId.value)
  {
  }

  /** A worked example of the ties: averages 90, 90, 80 are ranked 1, 1, 3. */
  lemma TiesSkipRanks()
    ensures var ks := [90.0, 90.0, 80.0];
            RankAt(ks, NoScore, 0) == 1 && RankAt(ks, NoScore, 1) == 1 && RankAt(ks, NoScore, 2) == 3
  {
  }
}
