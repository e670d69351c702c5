/** The grade records both views work on: one row of the class sheet each. */
module Records {

  datatype Option<T> = None | Some(value: T)

  function GetOr<T>(o: Option<T>, default: T): T
  {
    match o
    case Some(v) => v
    case None => default
  }

  /** A mark as the sheet records it: a number of points, one of three
      letter marks, or an empty cell. */
  datatype Score =
    | Num(points: real)
    | Absent     // 'н': missed practical, still to be made up
    | Excused    // 'б': excused absence
    | Credit     // 'зачет': passed without points
    | Blank      // null

  /** One observation: a student's mark for one class of one subject, with the
      subject average the sheet already computed (when it has one). */
  datatype Grade = Grade(
    userId: string,
    userName: string,
    subject: string,
    date: string,
    topic: string,
    score: Score,
    avgScore: Option<real>)

  predicate Distinct<T(==)>(xs: seq<T>)
  {
    forall i, j :: 0 <= i < j < |xs| ==> xs[i] != xs[j]
  }

  lemma {:induction false} DistinctCounts<T>(xs: seq<T>)
    requires Distinct(xs)
    ensures forall x :: multiset(xs)[x] <= 1
  {
    if |xs| > 0 {
      var init, y := xs[..|xs| - 1], xs[|xs| - 1];
      assert Distinct(init);
      DistinctCounts(init);
      assert xs == init + [y];
      assert y !in init;
    }
  }

  lemma RepeatCounts<T>(xs: seq<T>, i: nat, j: nat)
    requires i < j < |xs|
    ensures xs[i] == xs[j] ==> multiset(xs)[xs[i]] >= 2
  {
    var a, b := xs[..j], xs[j..];
    assert xs == a + b;
    assert xs[i] == a[i];
    assert xs[j] == b[0];
  }

  /** A prefix one longer is the prefix and the next element. */
  lemma PrefixSnoc<T>(s: seq<T>, i: nat)
    requires i < |s|
    ensures s[..i + 1] == s[..i] + [s[i]]
  {
  }

  /** Appending a new element keeps a list free of repeats. */
  lemma DistinctSnoc<T>(xs: seq<T>, x: T)
    requires Distinct(xs) && x !in xs
    ensures Distinct(xs + [x])
  {
    var ys := xs + [x];
    forall i, j | 0 <= i < j < |ys| ensures ys[i] != ys[j] {
      if j == |xs| {
        assert ys[i] == xs[i];
      } else {
        assert ys[i] == xs[i] && ys[j] == xs[j];
      }
    }
  }

  /** Rearranging a list without repeats gives a list without repeats. */
  lemma DistinctPermutation<T>(xs: seq<T>, ys: seq<T>)
    requires multiset(xs) == multiset(ys)
    requires Distinct(ys)
    ensures Distinct(xs)
  {
    DistinctCounts(ys);
    forall i, j | 0 <= i < j < |xs| ensures xs[i] != xs[j] {
      RepeatCounts(xs, i, j);
    }
  }

  /** The records marked 'н', in their order: `grades.filter(g => g.score === 'н')`. */
  function Absences(s: seq<Grade>): (r: seq<Grade>)
    ensures |r| <= |s|
    ensures forall g :: g in r <==> g in s && g.score == Absent
  {
    if |s| == 0 then []
    else
      var init := Absences(s[..|s| - 1]);
      assert forall g :: g in s <==> g in s[..|s| - 1] || g == s[|s| - 1] by {
        assert s == s[..|s| - 1] + [s[|s| - 1]];
      }
      if s[|s| - 1].score == Absent then init + [s[|s| - 1]] else init
  }

  /** The name shown for a student: the first record's name, or `User <id>`
      when that name is empty (or there is no record). */
  function StudentName(id: string, grades: seq<Grade>): (name: string)
    ensures name != []
    ensures |grades| > 0 && grades[0].userName != [] ==> name == grades[0].userName
    ensures (|grades| == 0 || grades[0].userName == []) ==> name == "User " + id
  {
    if |grades| > 0 && grades[0].userName != "" then grades[0].userName else "User " + id
  }
}
