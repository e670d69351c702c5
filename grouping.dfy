/** Grouping grade records by a key (subject or student), as the views do by
    pushing each record onto the array stored under its key in an accumulator
    object. The groups are listed in the order their keys first appear. */
module Grouping {
  import opened Records

  datatype GroupKey = BySubject | ByUser

  function KeyOf(g: Grade, key: GroupKey): string
  {
    match key
    case BySubject => g.subject
    case ByUser => g.userId
  }

  /** The records of `s` whose key is `k`, in their order in `s`. */
  function Select(s: seq<Grade>, key: GroupKey, k: string): (r: seq<Grade>)
    ensures |r| <= |s|
  {
    if |s| == 0 then []
    else
      var init := Select(s[..|s| - 1], key, k);
      if KeyOf(s[|s| - 1], key) == k then init + [s[|s| - 1]] else init
  }

  /** The distinct keys of `s` in order of first appearance. */
  function KeysInOrder(s: seq<Grade>, key: GroupKey): (ks: seq<string>)
    ensures Distinct(ks)
  {
    if |s| == 0 then []
    else
      var init := KeysInOrder(s[..|s| - 1], key);
      var k := KeyOf(s[|s| - 1], key);
      if k in init then init else init + [k]
  }

  /** The accumulator object: `members[k]` is the array stored under `k`,
      and `keys` lists the properties in the order they were added. */
  datatype Groups = Groups(keys: seq<string>, members: map<string, seq<Grade>>)

  /** The group of every key of `s`. */
  function SelectMap(s: seq<Grade>, key: GroupKey): map<string, seq<Grade>>
  {
    map k | k in KeysInOrder(s, key) :: Select(s, key, k)
  }

  /** A group holds exactly the records carrying its key. */
  lemma {:induction false} SelectMembers(s: seq<Grade>, key: GroupKey, k: string)
    ensures forall g :: g in Select(s, key, k) <==> g in s && KeyOf(g, key) == k
  {
    if |s| > 0 {
      var init := s[..|s| - 1];
      assert s == init + [s[|s| - 1]];
      SelectMembers(init, key, k);
    }
  }

  /** The key list names every key that occurs, and nothing else. */
  lemma {:induction false} KeysInOrderMembers(s: seq<Grade>, key: GroupKey)
    ensures forall k :: k in KeysInOrder(s, key) <==> exists g :: g in s && KeyOf(g, key) == k
  {
    if |s| > 0 {
      var init := s[..|s| - 1];
      assert s == init + [s[|s| - 1]];
      KeysInOrderMembers(init, key);
    }
  }

  /** A key that has not occurred has an empty group. */
  lemma {:induction false} SelectMissing(s: seq<Grade>, key: GroupKey, k: string)
    requires k !in KeysInOrder(s, key)
    ensures Select(s, key, k) == []
  {
    if |s| > 0 {
      var init := s[..|s| - 1];
      assert KeyOf(s[|s| - 1], key) in KeysInOrder(s, key);
      assert k !in KeysInOrder(init, key);
      SelectMissing(init, key, k);
    }
  }

  /** How the keys of a prefix grow by one record. */
  lemma GroupStep(s: seq<Grade>, i: nat, key: GroupKey)
    requires i < |s|
    ensures KeysInOrder(s[..i + 1], key)
         == var ks := KeysInOrder(s[..i], key);
            if KeyOf(s[i], key) in ks then ks else ks + [KeyOf(s[i], key)]
  {
    var done := s[..i + 1];
    assert done[..i] == s[..i] && done[i] == s[i];
  }

  /** How one group of a prefix grows by one record. */
  lemma SelectStep(s: seq<Grade>, i: nat, key: GroupKey, k: string)
    requires i < |s|
    ensures Select(s[..i + 1], key, k) == Select(s[..i], key, k) + (if KeyOf(s[i], key) == k then [s[i]] else [])
  {
    var done := s[..i + 1];
    assert done[..i] == s[..i] && done[i] == s[i];
    assert done == s[..i] + [s[i]];
  }

  /** The accumulator after the first `i` records. */
  ghost predicate GroupedPrefix(s: seq<Grade>, i: nat, key: GroupKey,
                                keys: seq<string>, members: map<string, seq<Grade>>)
    requires i <= |s|
  {
    && keys == KeysInOrder(s[..i], key)
    && (forall k :: k in members <==> k in keys)
    && (forall k :: k in members ==> members[k] == Select(s[..i], key, k))
  }

  /** The `reduce` that creates an empty array under a key the first time
      the key is met and pushes each record onto the array of its key. */
  method GroupBy(s: seq<Grade>, key: GroupKey) returns (g: Groups)
    ensures g.keys == KeysInOrder(s, key)
    ensures g.members == SelectMap(s, key)
  {
    var keys: seq<string> := [];
    var members: map<string, seq<Grade>> := map[];
    var i := 0;
    while i < |s|
      invariant 0 <= i <= |s|
      invariant GroupedPrefix(s, i, key, keys, members)
    {
      var x := s[i];
      var k := KeyOf(x, key);
      ghost var keys0, members0 := keys, members;
      if k !in members {
        keys := keys + [k];
        members := members[k := []];
      }
      members := members[k := members[k] + [x]];
      PushStep(s, i, key, keys0, members0);
      i := i + 1;
    }
    GroupedAll(s, key, keys, members);
    g := Groups(keys, members);
  }

  /** After the last record the accumulator is the finished grouping. */
  lemma GroupedAll(s: seq<Grade>, key: GroupKey, keys: seq<string>, members: map<string, seq<Grade>>)
    requires GroupedPrefix(s, |s|, key, keys, members)
    ensures keys == KeysInOrder(s, key)
    ensures members == SelectMap(s, key)
  {
    assert s[..|s|] == s;
    ghost var m := SelectMap(s, key);
    assert members.Keys == m.Keys;
  }

  /** Pushing record `i` onto its group keeps the accumulator in step. */
  lemma PushStep(s: seq<Grade>, i: nat, key: GroupKey,
                 keys: seq<string>, members: map<string, seq<Grade>>)
    requires i < |s|
    requires GroupedPrefix(s, i, key, keys, members)
    ensures var k := KeyOf(s[i], key);
            var keys', members' := if k in members then keys else keys + [k],
                                   if k in members then members else members[k := []];
            GroupedPrefix(s, i + 1, key, keys', members'[k := members'[k] + [s[i]]])
  {
    var k := KeyOf(s[i], key);
    GroupStep(s, i, key);
    if k !in members {
      SelectMissing(s[..i], key, k);
    }
    forall k' ensures Select(s[..i + 1], key, k') == Select(s[..i], key, k') + (if k == k' then [s[i]] else []) {
      SelectStep(s, i, key, k');
    }
  }

  /** The groups of `ks`, one after the other. */
  function Flatten(ks: seq<string>, s: seq<Grade>, key: GroupKey): seq<Grade>
  {
    if |ks| == 0 then [] else Select(s, key, ks[0]) + Flatten(ks[1..], s, key)
  }

  /** The total number of records in the groups of `ks`. */
  function SizeSum(ks: seq<string>, s: seq<Grade>, key: GroupKey): nat
  {
    if |ks| == 0 then 0 else |Select(s, key, ks[0])| + SizeSum(ks[1..], s, key)
  }

  lemma {:induction false} FlattenSnoc(ks: seq<string>, s: seq<Grade>, x: Grade, key: GroupKey)
    requires Distinct(ks)
    ensures multiset(Flatten(ks, s + [x], key))
         == multiset(Flatten(ks, s, key)) + (if KeyOf(x, key) in ks then multiset{x} else multiset{})
  {
    if |ks| > 0 {
      assert (s + [x])[..|s + [x]| - 1] == s;
      FlattenSnoc(ks[1..], s, x, key);
      assert KeyOf(x, key) in ks <==> KeyOf(x, key) == ks[0] || KeyOf(x, key) in ks[1..];
      assert ks[0] !in ks[1..];
    }
  }

  lemma {:induction false} FlattenCovers(ks: seq<string>, s: seq<Grade>, key: GroupKey)
    requires Distinct(ks)
    requires forall g :: g in s ==> KeyOf(g, key) in ks
    ensures multiset(Flatten(ks, s, key)) == multiset(s)
  {
    if |s| == 0 {
      FlattenEmpty(ks, key);
    } else {
      var init, x := s[..|s| - 1], s[|s| - 1];
      assert s == init + [x];
      FlattenCovers(ks, init, key);
      FlattenSnoc(ks, init, x, key);
    }
  }

  lemma {:induction false} FlattenEmpty(ks: seq<string>, key: GroupKey)
    ensures Flatten(ks, [], key) == []
  {
    if |ks| > 0 {
      FlattenEmpty(ks[1..], key);
    }
  }

  lemma {:induction false} SizeSumIsFlattenLength(ks: seq<string>, s: seq<Grade>, key: GroupKey)
    ensures SizeSum(ks, s, key) == |Flatten(ks, s, key)|
  {
    if |ks| > 0 {
      SizeSumIsFlattenLength(ks[1..], s, key);
    }
  }

  /** Groups whose keys cover every record have sizes adding up to the
      number of records. */
  lemma SizeSumCovering(ks: seq<string>, s: seq<Grade>, key: GroupKey)
    requires Distinct(ks)
    requires forall g :: g in s ==> KeyOf(g, key) in ks
    ensures SizeSum(ks, s, key) == |s|
  {
    FlattenCovers(ks, s, key);
    SizeSumIsFlattenLength(ks, s, key);
    assert |multiset(Flatten(ks, s, key))| == |multiset(s)|;
  }

  /** The groups partition the input: taken together they hold exactly the
      input records, none dropped and none duplicated, and their sizes add
      up to the number of records. */
  lemma {:induction false} GroupsPartition(s: seq<Grade>, key: GroupKey)
    ensures multiset(Flatten(KeysInOrder(s, key), s, key)) == multiset(s)
    ensures SizeSum(KeysInOrder(s, key), s, key) == |s|
  {
    var ks := KeysInOrder(s, key);
    KeysInOrderMembers(s, key);
    FlattenCovers(ks, s, key);
    SizeSumIsFlattenLength(ks, s, key);
    assert |multiset(Flatten(ks, s, key))| == |multiset(s)|;
  }

  /** Selecting a group keeps the records' relative order: the records that
      came from an earlier part of the input come first. */
  lemma {:induction false} SelectKeepsOrder(a: seq<Grade>, b: seq<Grade>, key: GroupKey, k: string)
    ensures Select(a + b, key, k) == Select(a, key, k) + Select(b, key, k)
  {
    if |b| > 0 {
      var b', y := b[..|b| - 1], b[|b| - 1];
      assert (a + b)[..|a + b| - 1] == a + b';
      assert b[..|b| - 1] == b';
      SelectKeepsOrder(a, b', key, k);
    } else {
      assert a + b == a;
    }
  }

  /** Taking the absences and then a group is the same as taking the group
      and then its absences. */
  lemma {:induction false} AbsencesOfSelect(s: seq<Grade>, key: GroupKey, k: string)
    ensures Absences(Select(s, key, k)) == Select(Absences(s), key, k)
  {
    if |s| > 0 {
      var init, x := s[..|s| - 1], s[|s| - 1];
      AbsencesOfSelect(init, key, k);
      var a := Absences(init);
      if x.score == Absent {
        assert (a + [x])[..|a + [x]| - 1] == a;
      }
      if KeyOf(x, key) == k {
        var t := Select(init, key, k);
        assert (t + [x])[..|t + [x]| - 1] == t;
      }
    }
  }
}
