/** The in-place sort both views call (`Array.prototype.sort`), which is
    stable: it orders by a comparator and keeps elements the comparator calls
    equal in their previous order. The model is a stable insertion sort;
    `le(a, b)` holds when the comparator lets `a` stay in front of `b`, that
    is, when `compare(a, b) <= 0`. */
module Sorting {

  /** Puts `x` behind the last element of `s` that may stay in front of it. */
  function Insert<T>(s: seq<T>, x: T, le: (T, T) -> bool): (r: seq<T>)
    ensures |r| == |s| + 1
  {
    if |s| == 0 || le(s[|s| - 1], x) then s + [x]
    else Insert(s[..|s| - 1], x, le) + [s[|s| - 1]]
  }

  /** The result of sorting `s` with `le`, element by element from the front. */
  function StableSort<T>(s: seq<T>, le: (T, T) -> bool): (r: seq<T>)
    ensures |r| == |s|
  {
    if |s| == 0 then [] else Insert(StableSort(s[..|s| - 1], le), s[|s| - 1], le)
  }

  ghost predicate TotalPreorder<T(!new)>(le: (T, T) -> bool)
  {
    && (forall a, b :: le(a, b) || le(b, a))
    && (forall a, b, c :: le(a, b) && le(b, c) ==> le(a, c))
  }

  predicate SortedBy<T>(s: seq<T>, le: (T, T) -> bool)
  {
    forall i, j :: 0 <= i < j < |s| ==> le(s[i], s[j])
  }

  /** One pass of the sort: moves `a[i]` back past the elements that may not
      stay in front of it. */
  method InsertAt<T>(a: array<T>, i: nat, le: (T, T) -> bool)
    requires i < a.Length
    modifies a
    ensures a[..i + 1] == Insert(old(a[..i]), old(a[i]), le)
    ensures a[i + 1..] == old(a[i + 1..])
  {
    var x := a[i];
    ghost var s0 := a[..];
    ghost var sorted := a[..i];
    var j := i;
    assert sorted[..j] == sorted && sorted[j..] == [];
    while j > 0 && !le(a[j - 1], x)
      invariant 0 <= j <= i
      invariant forall m :: 0 <= m < j ==> a[m] == sorted[m]
      invariant forall m :: j < m <= i ==> a[m] == sorted[m - 1]
      invariant forall m :: i < m < a.Length ==> a[m] == s0[m]
      invariant Insert(sorted, x, le) == Insert(sorted[..j], x, le) + sorted[j..]
    {
      InsertBack(sorted, x, le, j);
      a[j] := a[j - 1];
      j := j - 1;
    }
    InsertHere(sorted, x, le, j);
    a[j] := x;
    ghost var want := sorted[..j] + [x] + sorted[j..];
    assert forall m :: 0 <= m <= i ==> a[m] == want[m];
    assert a[..i + 1] == want;
    assert forall m :: i < m < a.Length ==> a[m] == s0[m];
  }

  /** Moving the gap one step to the front keeps the sorted result. */
  lemma InsertBack<T>(sorted: seq<T>, x: T, le: (T, T) -> bool, j: nat)
    requires 0 < j <= |sorted|
    requires !le(sorted[j - 1], x)
    ensures Insert(sorted[..j], x, le) + sorted[j..] == Insert(sorted[..j - 1], x, le) + sorted[j - 1..]
  {
    var p := sorted[..j];
    assert p[|p| - 1] == sorted[j - 1];
    assert p[..|p| - 1] == sorted[..j - 1];
    var front := Insert(sorted[..j - 1], x, le);
    assert Insert(p, x, le) == front + [sorted[j - 1]];
    assert sorted[j - 1..] == [sorted[j - 1]] + sorted[j..];
    assert (front + [sorted[j - 1]]) + sorted[j..] == front + ([sorted[j - 1]] + sorted[j..]);
  }

  /** Where the gap stops, `x` goes into it. */
  lemma InsertHere<T>(sorted: seq<T>, x: T, le: (T, T) -> bool, j: nat)
    requires j <= |sorted|
    requires j == 0 || le(sorted[j - 1], x)
    requires Insert(sorted, x, le) == Insert(sorted[..j], x, le) + sorted[j..]
    ensures Insert(sorted, x, le) == sorted[..j] + [x] + sorted[j..]
  {
    if j > 0 {
      assert sorted[..j][j - 1] == sorted[j - 1];
    }
  }

  method InsertionSort<T>(a: array<T>, le: (T, T) -> bool)
    modifies a
    ensures a[..] == StableSort(old(a[..]), le)
  {
    ghost var s0 := a[..];
    var i := 0;
    while i < a.Length
      invariant 0 <= i <= a.Length
      invariant a[..i] == StableSort(s0[..i], le)
      invariant a[i..] == s0[i..]
    {
      InsertAt(a, i, le);
      assert s0[..i + 1][..i] == s0[..i];
      i := i + 1;
    }
    assert a[..] == a[..a.Length];
    assert s0 == s0[..a.Length];
  }

  lemma {:induction false} InsertPermutes<T>(s: seq<T>, x: T, le: (T, T) -> bool)
    ensures multiset(Insert(s, x, le)) == multiset(s) + multiset{x}
  {
    if |s| > 0 && !le(s[|s| - 1], x) {
      InsertPermutes(s[..|s| - 1], x, le);
      assert s == s[..|s| - 1] + [s[|s| - 1]];
    }
  }

  /** Sorting only rearranges: it neither drops nor duplicates an element. */
  lemma {:induction false} SortPermutes<T>(s: seq<T>, le: (T, T) -> bool)
    ensures multiset(StableSort(s, le)) == multiset(s)
  {
    if |s| > 0 {
      SortPermutes(s[..|s| - 1], le);
      InsertPermutes(StableSort(s[..|s| - 1], le), s[|s| - 1], le);
      assert s == s[..|s| - 1] + [s[|s| - 1]];
    }
  }

  lemma {:induction false} InsertSorted<T(!new)>(s: seq<T>, x: T, le: (T, T) -> bool)
    requires TotalPreorder(le)
    requires SortedBy(s, le)
    ensures SortedBy(Insert(s, x, le), le)
  {
    if |s| > 0 && !le(s[|s| - 1], x) {
      var init, last := s[..|s| - 1], s[|s| - 1];
      InsertSorted(init, x, le);
      InsertPermutes(init, x, le);
      var r := Insert(init, x, le);
      forall e | e in r ensures le(e, last) {
        assert e in multiset(r);
        if e != x {
          assert e in multiset(init);
          var k :| 0 <= k < |init| && init[k] == e;
          assert s[k] == e;
        }
      }
      assert forall i :: 0 <= i < |r| ==> r[i] in r;
    }
  }

  /** With a consistent comparator the result is in comparator order. */
  lemma {:induction false} SortSorted<T(!new)>(s: seq<T>, le: (T, T) -> bool)
    requires TotalPreorder(le)
    ensures SortedBy(StableSort(s, le), le)
  {
    if |s| > 0 {
      SortSorted(s[..|s| - 1], le);
      InsertSorted(StableSort(s[..|s| - 1], le), s[|s| - 1], le);
    }
  }

  /** The elements of `s` seen through `f` (`s.map(f)`). */
  function Project<T, U>(s: seq<T>, f: T -> U): (r: seq<U>)
    ensures |r| == |s|
    ensures forall i :: 0 <= i < |s| ==> r[i] == f(s[i])
  {
    if |s| == 0 then [] else Project(s[..|s| - 1], f) + [f(s[|s| - 1])]
  }

  lemma {:induction false} InsertProjects<T, U>(s: seq<T>, x: T, le: (T, T) -> bool, f: T -> U)
    ensures multiset(Project(Insert(s, x, le), f)) == multiset(Project(s, f)) + multiset{f(x)}
  {
    if |s| == 0 || le(s[|s| - 1], x) {
      assert Project(s + [x], f) == Project(s, f) + [f(x)];
    } else {
      var init, last := s[..|s| - 1], s[|s| - 1];
      InsertProjects(init, x, le, f);
      var r := Insert(init, x, le);
      assert Project(r + [last], f) == Project(r, f) + [f(last)];
      assert Project(s, f) == Project(init, f) + [f(last)];
    }
  }

  /** Sorting rearranges any field the same way: its values, as a multiset, do not change. */
  lemma {:induction false} SortProjects<T, U>(s: seq<T>, le: (T, T) -> bool, f: T -> U)
    ensures multiset(Project(StableSort(s, le), f)) == multiset(Project(s, f))
  {
    if |s| > 0 {
      var init := s[..|s| - 1];
      SortProjects(init, le, f);
      InsertProjects(StableSort(init, le), s[|s| - 1], le, f);
      assert Project(s, f) == Project(init, f) + [f(s[|s| - 1])];
    }
  }

  /** The elements of `s` that the comparator calls equal to `y`, in order. */
  function EqualTo<T>(s: seq<T>, y: T, le: (T, T) -> bool): seq<T>
  {
    if |s| == 0 then []
    else EqualTo(s[..|s| - 1], y, le) + (if le(s[|s| - 1], y) && le(y, s[|s| - 1]) then [s[|s| - 1]] else [])
  }

  lemma {:induction false} InsertStable<T(!new)>(s: seq<T>, x: T, le: (T, T) -> bool, y: T)
    requires TotalPreorder(le)
    ensures EqualTo(Insert(s, x, le), y, le)
         == EqualTo(s, y, le) + (if le(x, y) && le(y, x) then [x] else [])
  {
    if |s| == 0 || le(s[|s| - 1], x) {
      assert (s + [x])[..|s + [x]| - 1] == s;
    } else {
      var init, last := s[..|s| - 1], s[|s| - 1];
      InsertStable(init, x, le, y);
      var r := Insert(init, x, le);
      assert (r + [last])[..|r + [last]| - 1] == r;
    }
  }

  /** Stability: elements the comparator calls equal keep their relative order. */
  lemma {:induction false} SortStable<T(!new)>(s: seq<T>, le: (T, T) -> bool, y: T)
    requires TotalPreorder(le)
    ensures EqualTo(StableSort(s, le), y, le) == EqualTo(s, y, le)
  {
    if |s| > 0 {
      var init := s[..|s| - 1];
      SortStable(init, le, y);
      InsertStable(StableSort(init, le), s[|s| - 1], le, y);
    }
  }
}
