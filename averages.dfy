/** Averages: the sheet supplies a pre-computed average per subject on the
    subject's rows; a student's overall average is the arithmetic mean of one
    such average per subject. Arithmetic is exact (`real`). */
module Averages {
  import opened Records
  import opened Grouping

  function Sum(xs: seq<real>): real
  {
    if |xs| == 0 then 0.0 else Sum(xs[..|xs| - 1]) + xs[|xs| - 1]
  }

  function Mean(xs: seq<real>): real
    requires |xs| > 0
  {
    Sum(xs) / (|xs| as real)
  }

  lemma {:induction false} SumBounds(xs: seq<real>, lo: real, hi: real)
    requires forall i :: 0 <= i < |xs| ==> lo <= xs[i] <= hi
    ensures (|xs| as real) * lo <= Sum(xs) <= (|xs| as real) * hi
  {
    if |xs| > 0 {
      SumBounds(xs[..|xs| - 1], lo, hi);
    }
  }

  lemma {:induction false} SumAtLeast(xs: seq<real>, lo: real)
    requires forall i :: 0 <= i < |xs| ==> lo <= xs[i]
    ensures (|xs| as real) * lo <= Sum(xs)
  {
    if |xs| > 0 {
      SumAtLeast(xs[..|xs| - 1], lo);
    }
  }

  lemma MeanAtLeast(xs: seq<real>, lo: real)
    requires |xs| > 0
    requires forall i :: 0 <= i < |xs| ==> lo <= xs[i]
    ensures lo <= Mean(xs)
  {
    SumAtLeast(xs, lo);
    var n := |xs| as real;
    assert n * lo / n == lo;
  }

  /** A mean lies between the least and the greatest of the values averaged. */
  lemma MeanBounds(xs: seq<real>, lo: real, hi: real)
    requires |xs| > 0
    requires forall i :: 0 <= i < |xs| ==> lo <= xs[i] <= hi
    ensures lo <= Mean(xs) <= hi
  {
    SumBounds(xs, lo, hi);
    var n := |xs| as real;
    assert n * lo / n == lo && n * hi / n == hi;
  }

  /** `subjectGrades.find(g => typeof g.avg_score === 'number')?.avg_score`:
      the first average on the rows, if any row has one. */
  function FirstAvg(s: seq<Grade>): (r: Option<real>)
    ensures r.None? <==> forall i :: 0 <= i < |s| ==> s[i].avgScore.None?
    ensures r.Some? ==> exists i :: 0 <= i < |s| && s[i].avgScore == r
                                   && forall j :: 0 <= j < i ==> s[j].avgScore.None?
  {
    if |s| == 0 then None
    else if s[0].avgScore.Some? then s[0].avgScore
    else
      var r := FirstAvg(s[1..]);
      assert r.Some? ==> exists i :: 0 <= i < |s| - 1 && s[1..][i].avgScore == r
                                   && forall j :: 0 <= j < i ==> s[1..][j].avgScore.None?;
      r
  }

  /** The value a `Map.set(subject, avg)` over the rows leaves behind: the
      last average on the rows, if any row has one. */
  function LastAvg(s: seq<Grade>): (r: Option<real>)
    ensures r.None? <==> forall i :: 0 <= i < |s| ==> s[i].avgScore.None?
    ensures r.Some? ==> exists i :: 0 <= i < |s| && s[i].avgScore == r
                                   && forall j :: i < j < |s| ==> s[j].avgScore.None?
  {
    if |s| == 0 then None
    else if s[|s| - 1].avgScore.Some? then s[|s| - 1].avgScore
    else LastAvg(s[..|s| - 1])
  }

  /** Which of a subject's averages counts when the rows disagree. */
  datatype Pick = FirstOnRows | LastOnRows

  function Picked(s: seq<Grade>, pick: Pick): Option<real>
  {
    match pick
    case FirstOnRows => FirstAvg(s)
    case LastOnRows => LastAvg(s)
  }

  /** One average per subject of `ks` that has one, in the order of `ks`. */
  function SubjectAverages(ks: seq<string>, s: seq<Grade>, pick: Pick): seq<real>
  {
    if |ks| == 0 then []
    else
      SubjectAverages(ks[..|ks| - 1], s, pick)
      + match Picked(Select(s, BySubject, ks[|ks| - 1]), pick)
        case Some(v) => [v]
        case None => []
  }

  /** A student's overall average: the mean of their subject averages, or
      none when no subject has one. */
  function OverallAverage(s: seq<Grade>, pick: Pick): (r: Option<real>)
    ensures r.None? <==> |SubjectAverages(KeysInOrder(s, BySubject), s, pick)| == 0
  {
    MeanOf(SubjectAverages(KeysInOrder(s, BySubject), s, pick))
  }

  /** The mean of the values, or none when there are none. */
  function MeanOf(xs: seq<real>): (r: Option<real>)
    ensures r.None? <==> |xs| == 0
    ensures r.Some? ==> r.value * (|xs| as real) == Sum(xs)
  {
    if |xs| > 0 then Some(Mean(xs)) else None
  }

  lemma {:induction false} SubjectAveragesFromRows(ks: seq<string>, s: seq<Grade>, pick: Pick)
    ensures forall v :: v in SubjectAverages(ks, s, pick) ==> exists g :: g in s && g.avgScore == Some(v)
    ensures SubjectAverages(ks, s, pick) == []
        <==> forall k :: k in ks ==> Picked(Select(s, BySubject, k), pick).None?
  {
    if |ks| > 0 {
      var init, k := ks[..|ks| - 1], ks[|ks| - 1];
      SubjectAveragesFromRows(init, s, pick);
      assert ks == init + [k];
      var sel := Select(s, BySubject, k);
      SelectMembers(s, BySubject, k);
      assert k in ks;
      match Picked(sel, pick)
      case Some(v) =>
        var i :| 0 <= i < |sel| && sel[i].avgScore == Some(v);
        assert sel[i] in s;
        assert SubjectAverages(ks, s, pick) == SubjectAverages(init, s, pick) + [v];
      case None =>
        assert SubjectAverages(ks, s, pick) == SubjectAverages(init, s, pick);
    }
  }

  /** A group has no picked average exactly when none of its rows has one. */
  lemma PickedNoneIff(sel: seq<Grade>, pick: Pick)
    ensures Picked(sel, pick).None? <==> forall g :: g in sel ==> g.avgScore.None?
  {
    assert forall g :: g in sel ==> exists i :: 0 <= i < |sel| && sel[i] == g;
  }

  lemma RowWithoutAverage(s: seq<Grade>, pick: Pick, g: Grade)
    requires g in s
    requires forall k :: k in KeysInOrder(s, BySubject) ==> Picked(Select(s, BySubject, k), pick).None?
    ensures g.avgScore.None?
  {
    KeysInOrderMembers(s, BySubject);
    assert KeyOf(g, BySubject) == g.subject;
    assert g.subject in KeysInOrder(s, BySubject);
    var sel := Select(s, BySubject, g.subject);
    SelectMembers(s, BySubject, g.subject);
    PickedNoneIff(sel, pick);
  }

  lemma NoRowAverageNoOverall(s: seq<Grade>, pick: Pick)
    requires forall g :: g in s ==> g.avgScore.None?
    ensures OverallAverage(s, pick).None?
  {
    var ks := KeysInOrder(s, BySubject);
    forall k | k in ks ensures Picked(Select(s, BySubject, k), pick).None? {
      SelectMembers(s, BySubject, k);
      PickedNoneIff(Select(s, BySubject, k), pick);
    }
    SubjectAveragesFromRows(ks, s, pick);
  }

  lemma NoOverallNoRowAverage(s: seq<Grade>, pick: Pick)
    requires OverallAverage(s, pick).None?
    ensures forall g :: g in s ==> g.avgScore.None?
  {
    var ks := KeysInOrder(s, BySubject);
    SubjectAveragesFromRows(ks, s, pick);
    forall g | g in s ensures g.avgScore.None? {
      RowWithoutAverage(s, pick, g);
    }
  }

  /** A student has no overall average exactly when none of their rows
      carries a subject average. */
  lemma OverallNoneIff(s: seq<Grade>, pick: Pick)
    ensures OverallAverage(s, pick).None? <==> forall g :: g in s ==> g.avgScore.None?
  {
    if OverallAverage(s, pick).None? {
      NoOverallNoRowAverage(s, pick);
    } else if forall g :: g in s ==> g.avgScore.None? {
      NoRowAverageNoOverall(s, pick);
    }
  }

  /** When every average on the sheet lies in `[lo, hi]`, so does the overall
      average (a sheet of percentages gives an overall percentage). */
  lemma OverallBounds(s: seq<Grade>, pick: Pick, lo: real, hi: real)
    requires forall g :: g in s && g.avgScore.Some? ==> lo <= g.avgScore.value <= hi
    ensures OverallAverage(s, pick).Some? ==> lo <= OverallAverage(s, pick).value <= hi
  {
    var avgs := SubjectAverages(KeysInOrder(s, BySubject), s, pick);
    SubjectAveragesFromRows(KeysInOrder(s, BySubject), s, pick);
    if |avgs| > 0 {
      forall i | 0 <= i < |avgs| ensures lo <= avgs[i] <= hi {
        assert avgs[i] in avgs;
      }
      MeanBounds(avgs, lo, hi);
    }
  }

  /** When no average on the sheet is below `lo`, neither is the overall
      average. */
  lemma OverallAtLeast(s: seq<Grade>, pick: Pick, lo: real)
    requires forall g :: g in s && g.avgScore.Some? ==> lo <= g.avgScore.value
    ensures OverallAverage(s, pick).Some? ==> lo <= OverallAverage(s, pick).value
  {
    var avgs := SubjectAverages(KeysInOrder(s, BySubject), s, pick);
    SubjectAveragesFromRows(KeysInOrder(s, BySubject), s, pick);
    if |avgs| > 0 {
      forall i | 0 <= i < |avgs| ensures lo <= avgs[i] {
        assert avgs[i] in avgs;
      }
      MeanAtLeast(avgs, lo);
    }
  }
}
