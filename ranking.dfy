/** The rank loop both views run over a list already sorted best first:

      currentRank := 0; lastScore := sentinel
      for each position i:  if value(i) != lastScore { currentRank := i + 1; lastScore := value(i) }
                            rank(i) := currentRank

    The ranks it gives are competition ranks (1, 1, 3): a position that
    repeats the value before it repeats its rank, and the next new value is
    ranked by its position. `K` is the type of the compared value and
    `sentinel` the initial `lastScore` (-1 in both views). */
module Ranking {
  import opened Records
  import opened Sorting

  /** Where the run of values equal to `ks[i]` that ends at `i` begins. */
  function RunStart<K(==)>(ks: seq<K>, i: nat): (j: nat)
    requires i < |ks|
    ensures j <= i
    ensures forall m :: j <= m <= i ==> ks[m] == ks[i]
    ensures j == 0 || ks[j - 1] != ks[i]
  {
    if i == 0 || ks[i - 1] != ks[i] then i else RunStart(ks, i - 1)
  }

  /** The rank the loop leaves at position `i`: one more than the position
      where its run of equal values begins, except that a first run equal to
      the sentinel keeps the initial rank 0. */
  function RankAt<K(==)>(ks: seq<K>, sentinel: K, i: nat): nat
    requires i < |ks|
  {
    var j := RunStart(ks, i);
    if j == 0 && ks[0] == sentinel then 0 else j + 1
  }

  /** One iteration of the loop: the rank at `i` from the rank at `i - 1` and
      the value compared against. */
  lemma RankStep<K>(ks: seq<K>, sentinel: K, i: nat)
    requires i < |ks|
    ensures var last := if i == 0 then sentinel else ks[i - 1];
            RankAt(ks, sentinel, i)
            == if ks[i] != last then i + 1
               else if i == 0 then 0
               else RankAt(ks, sentinel, i - 1)
  {
  }

  /** The loop body as the methods run it: from the rank and the last value
      after position `i - 1`, the rank after position `i`. */
  lemma RankLoopStep<K>(ks: seq<K>, sentinel: K, i: nat, rank: nat, last: K)
    requires i < |ks|
    requires last == if i == 0 then sentinel else ks[i - 1]
    requires rank == if i == 0 then 0 else RankAt(ks, sentinel, i - 1)
    ensures (if ks[i] != last then i + 1 else rank) == RankAt(ks, sentinel, i)
  {
    RankStep(ks, sentinel, i);
  }

  lemma {:induction false} RunStartMonotone<K>(ks: seq<K>, i: nat, j: nat)
    requires i <= j < |ks|
    ensures RunStart(ks, i) <= RunStart(ks, j)
    ensures RunStart(ks, j) <= i ==> RunStart(ks, i) == RunStart(ks, j)
  {
    if i < j && !(j == 0 || ks[j - 1] != ks[j]) {
      RunStartMonotone(ks, i, j - 1);
    }
  }

  /** Ranks never decrease along the list. */
  lemma {:induction false} RanksNonDecreasing<K>(ks: seq<K>, sentinel: K, i: nat, j: nat)
    requires i <= j < |ks|
    ensures RankAt(ks, sentinel, i) <= RankAt(ks, sentinel, j)
  {
    RunStartMonotone(ks, i, j);
  }

  /** Positions in one run of equal values share a rank. */
  lemma {:induction false} RunSharesRank<K>(ks: seq<K>, sentinel: K, i: nat, j: nat)
    requires i <= j < |ks|
    requires forall m :: i <= m <= j ==> ks[m] == ks[i]
    ensures RankAt(ks, sentinel, i) == RankAt(ks, sentinel, j)
  {
    RunStartMonotone(ks, i, j);
    var r := RunStart(ks, j);
    assert r <= i by {
      assert r == 0 || ks[r - 1] != ks[j];
    }
  }

  /** The number of positions whose sort key is strictly above `x`. */
  function CountAbove<K>(ks: seq<K>, key: K -> real, x: real): nat
  {
    if |ks| == 0 then 0 else (if key(ks[0]) > x then 1 else 0) + CountAbove(ks[1..], key, x)
  }

  /** Best first: sort keys never increase along the list. */
  predicate SortedDesc<K>(ks: seq<K>, key: K -> real)
  {
    forall a, b :: 0 <= a < b < |ks| ==> key(ks[a]) >= key(ks[b])
  }

  /** Values with the same sort key are the same value. */
  predicate KeyDeterminesValue<K(==)>(ks: seq<K>, key: K -> real)
  {
    forall a, b :: 0 <= a < |ks| && 0 <= b < |ks| && key(ks[a]) == key(ks[b]) ==> ks[a] == ks[b]
  }

  lemma {:induction false} CountAboveSplit<K>(ks: seq<K>, key: K -> real, x: real, j: nat)
    requires j <= |ks|
    requires forall m :: 0 <= m < j ==> key(ks[m]) > x
    requires forall m :: j <= m < |ks| ==> key(ks[m]) <= x
    ensures CountAbove(ks, key, x) == j
  {
    if |ks| > 0 {
      CountAboveSplit(ks[1..], key, x, if j == 0 then 0 else j - 1);
    }
  }

  /** Counting on a projected list with a key is counting on the list with
      the composed key. */
  lemma {:induction false} CountAboveProject<T, K>(xs: seq<T>, f: T -> K, key: K -> real, k: T -> real, x: real)
    requires forall t :: key(f(t)) == k(t)
    ensures CountAbove(Project(xs, f), key, x) == CountAbove(xs, k, x)
  {
    if |xs| > 0 {
      CountAboveProject(xs[1..], f, key, k, x);
      assert Project(xs, f)[1..] == Project(xs[1..], f);
    }
  }

  /** Competition ranking: on a list sorted best first whose sort key
      determines the compared value, and in which no value equals the
      sentinel, each rank is one more than the number of entries with a
      strictly greater key. */
  lemma {:induction false} CompetitionRank<K>(ks: seq<K>, key: K -> real, sentinel: K, i: nat)
    requires i < |ks|
    requires SortedDesc(ks, key)
    requires KeyDeterminesValue(ks, key)
    requires forall m :: 0 <= m < |ks| ==> ks[m] != sentinel
    ensures RankAt(ks, sentinel, i) == 1 + CountAbove(ks, key, key(ks[i]))
  {
    var j := RunStart(ks, i);
    var x := key(ks[i]);
    forall m | 0 <= m < j ensures key(ks[m]) > x {
      assert key(ks[m]) >= key(ks[j - 1]) >= x;
      assert ks[j - 1] != ks[i];
    }
    forall m | j <= m < |ks| ensures key(ks[m]) <= x {
      if m <= i {
        assert ks[m] == ks[i];
      }
    }
    CountAboveSplit(ks, key, x, j);
  }

  // ---------------------------------------------------------------------
  // The loop itself

  /** Every element of `s` combined with the rank the loop gives it, where
      `value` reads the compared value off an element and `withRank`
      attaches a rank to it. */
  function Ranked<T, K(==), R>(s: seq<T>, value: T -> K, withRank: (T, nat) -> R, sentinel: K): (r: seq<R>)
    ensures |r| == |s|
  {
    seq(|s|, i requires 0 <= i < |s| => withRank(s[i], RankAt(Project(s, value), sentinel, i)))
  }

  lemma RankedAt<T, K, R>(s: seq<T>, value: T -> K, withRank: (T, nat) -> R, sentinel: K, i: nat)
    requires i < |s|
    ensures Ranked(s, value, withRank, sentinel)[i] == withRank(s[i], RankAt(Project(s, value), sentinel, i))
  {
  }

  /** The loop that writes each rank into the list in place. */
  method RankInPlace<T, K(==)>(a: array<T>, value: T -> K, withRank: (T, nat) -> T, sentinel: K)
    modifies a
    ensures a[..] == Ranked(old(a[..]), value, withRank, sentinel)
  {
    ghost var s0 := a[..];
    ghost var ks := Project(s0, value);
    ghost var full := Ranked(s0, value, withRank, sentinel);
    var currentRank: nat := 0;
    var lastScore := sentinel;
    var i := 0;
    while i < a.Length
      invariant 0 <= i <= a.Length
      invariant forall m :: 0 <= m < i ==> a[m] == full[m]
      invariant forall m :: i <= m < a.Length ==> a[m] == s0[m]
      invariant lastScore == if i == 0 then sentinel else ks[i - 1]
      invariant currentRank == if i == 0 then 0 else RankAt(ks, sentinel, i - 1)
    {
      var x := a[i];
      var v := value(x);
      RankLoopStep(ks, sentinel, i, currentRank, lastScore);
      if v != lastScore {
        currentRank := i + 1;
        lastScore := v;
      }
      ghost var want := full[i];
      assert withRank(x, currentRank) == want;
      a[i] := withRank(x, currentRank);
      i := i + 1;
    }
  }

  /** The loop that builds a new list of ranked elements. */
  method RankInto<T, K(==), R>(s: seq<T>, value: T -> K, withRank: (T, nat) -> R, sentinel: K)
    returns (ranked: seq<R>)
    ensures ranked == Ranked(s, value, withRank, sentinel)
  {
    ghost var ks := Project(s, value);
    ghost var full := Ranked(s, value, withRank, sentinel);
    ranked := [];
    var currentRank: nat := 0;
    var lastScore := sentinel;
    var i := 0;
    while i < |s|
      invariant 0 <= i <= |s|
      invariant ranked == full[..i]
      invariant lastScore == if i == 0 then sentinel else ks[i - 1]
      invariant currentRank == if i == 0 then 0 else RankAt(ks, sentinel, i - 1)
    {
      var x := s[i];
      var v := value(x);
      RankLoopStep(ks, sentinel, i, currentRank, lastScore);
      if v != lastScore {
        currentRank := i + 1;
        lastScore := v;
      }
      PrefixSnoc(full, i);
      ranked := ranked + [withRank(x, currentRank)];
      i := i + 1;
    }
    assert full[..i] == full;
  }
}
