/** A stable insertion sort, and the facts about sorted sequences that the models rely on. */
module Sorting {

  ghost predicate TotalPreorder<T(!new)>(le: (T, T) -> bool) {
    && (forall x, y :: le(x, y) || le(y, x))
    && (forall x, y, z :: le(x, y) && le(y, z) ==> le(x, z))
  }

  ghost predicate AntiSymmetric<T(!new)>(le: (T, T) -> bool) {
    forall x, y :: le(x, y) && le(y, x) ==> x == y
  }

  ghost predicate Sorted<T>(s: seq<T>, le: (T, T) -> bool) {
    forall i, j :: 0 <= i < j < |s| ==> le(s[i], s[j])
  }

  predicate NoDuplicates<T(==)>(s: seq<T>) {
    forall i, j :: 0 <= i < j < |s| ==> s[i] != s[j]
  }

  lemma {:induction false} DistinctCons<T>(x: T, s: seq<T>)
    ensures NoDuplicates([x] + s) <==> x !in s && NoDuplicates(s)
  {
    var r := [x] + s;
    assert r[0] == x;
    if NoDuplicates(r) {
      forall i, j | 0 <= i < j < |s| ensures s[i] != s[j] { assert r[i + 1] != r[j + 1]; }
      forall i | 0 <= i < |s| ensures s[i] != x { assert r[0] != r[i + 1]; }
    }
  }

  /** Puts `x` behind every element that is not greater, as a stable sort does. */
  function Insert<T>(s: seq<T>, x: T, le: (T, T) -> bool): (r: seq<T>)
    ensures multiset(r) == multiset(s) + multiset{x}
  {
    if s == [] then
      [x]
    else if le(s[|s| - 1], x) then
      s + [x]
    else
      var init := s[..|s| - 1];
      assert s == init + [s[|s| - 1]];
      Insert(init, x, le) + [s[|s| - 1]]
  }

  /** Sorts from the left, so that equal elements keep their order. */
  function Sort<T>(s: seq<T>, le: (T, T) -> bool): (r: seq<T>)
    ensures multiset(r) == multiset(s)
  {
    if s == [] then
      []
    else
      assert s == s[..|s| - 1] + [s[|s| - 1]];
      Insert(Sort(s[..|s| - 1], le), s[|s| - 1], le)
  }

  lemma {:induction false} SameElements<T>(s: seq<T>, t: seq<T>)
    requires multiset(s) == multiset(t)
    ensures |s| == |t| && forall x :: x in s <==> x in t
  {
    assert |multiset(s)| == |s| && |multiset(t)| == |t|;
    forall x ensures x in s <==> x in t {
      assert x in s <==> x in multiset(s);
      assert x in t <==> x in multiset(t);
    }
  }

  lemma {:induction false} InsertSorted<T(!new)>(s: seq<T>, x: T, le: (T, T) -> bool)
    requires TotalPreorder(le) && Sorted(s, le)
    ensures Sorted(Insert(s, x, le), le)
  {
    if s != [] && !le(s[|s| - 1], x) {
      var init, last := s[..|s| - 1], s[|s| - 1];
      InsertSorted(init, x, le);
      var r := Insert(init, x, le);
      forall y | y in r ensures le(y, last) {
        assert y in multiset(r);
        assert y == x || y in init;
      }
    } else if s != [] {
      forall i | 0 <= i < |s| ensures le(s[i], x) {
        assert i == |s| - 1 || le(s[i], s[|s| - 1]);
      }
    }
  }

  lemma {:induction false} SortSorted<T(!new)>(s: seq<T>, le: (T, T) -> bool)
    requires TotalPreorder(le)
    ensures Sorted(Sort(s, le), le)
  {
    if s != [] {
      SortSorted(s[..|s| - 1], le);
      InsertSorted(Sort(s[..|s| - 1], le), s[|s| - 1], le);
    }
  }

  /** One element stands before another. */
  ghost predicate StandsBefore<T>(s: seq<T>, x: T, y: T) {
    exists a, b :: 0 <= a < b < |s| && s[a] == x && s[b] == y
  }

  lemma {:induction false} BeforeAppend<T>(s: seq<T>, x: T, y: T, z: T)
    ensures StandsBefore(s, x, y) ==> StandsBefore(s + [z], x, y)
    ensures x in s ==> StandsBefore(s + [z], x, z)
  {
    var r := s + [z];
    if a, b :| 0 <= a < b < |s| && s[a] == x && s[b] == y {
      assert r[a] == x && r[b] == y;
    }
    if x in s {
      var a :| 0 <= a < |s| && s[a] == x;
      assert r[a] == x && r[|s|] == z;
    }
  }

  lemma {:induction false} InsertKeepsBefore<T>(s: seq<T>, x: T, le: (T, T) -> bool, y: T, z: T)
    requires StandsBefore(s, y, z)
    ensures StandsBefore(Insert(s, x, le), y, z)
  {
    if le(s[|s| - 1], x) {
      BeforeAppend(s, y, z, x);
    } else {
      var init, last := s[..|s| - 1], s[|s| - 1];
      var a, b :| 0 <= a < b < |s| && s[a] == y && s[b] == z;
      var r := Insert(init, x, le);
      assert Insert(s, x, le) == r + [last];
      hide Insert;
      if b < |init| {
        assert init[a] == y && init[b] == z;
        InsertKeepsBefore(init, x, le, y, z);
        BeforeAppend(r, y, z, last);
      } else {
        assert y in multiset(init) by { assert init[a] == y; }
        assert y in r by { assert y in multiset(r); }
        BeforeAppend(r, y, z, last);
      }
    }
  }

  lemma {:induction false} InsertGoesBehind<T>(s: seq<T>, x: T, le: (T, T) -> bool, y: T)
    requires y in s && le(y, x)
    ensures StandsBefore(Insert(s, x, le), y, x)
  {
    if le(s[|s| - 1], x) {
      BeforeAppend(s, y, y, x);
    } else {
      var init, last := s[..|s| - 1], s[|s| - 1];
      var a :| 0 <= a < |s| && s[a] == y;
      assert a < |init| && init[a] == y;
      InsertGoesBehind(init, x, le, y);
      BeforeAppend(Insert(init, x, le), y, x, last);
    }
  }

  /** Sorting moves no element before one that it follows and that is not greater. */
  lemma {:induction false} SortStable<T>(s: seq<T>, le: (T, T) -> bool, i: nat, j: nat)
    requires i < j < |s| && le(s[i], s[j])
    ensures StandsBefore(Sort(s, le), s[i], s[j])
  {
    var init, last := s[..|s| - 1], s[|s| - 1];
    var r := Sort(init, le);
    if j < |init| {
      SortStable(init, le, i, j);
      InsertKeepsBefore(r, last, le, s[i], s[j]);
    } else {
      assert init[i] in multiset(init);
      assert s[i] in r by { assert s[i] in multiset(r); }
      InsertGoesBehind(r, last, le, s[i]);
    }
  }

  lemma {:induction false} NoDuplicatesCount<T>(s: seq<T>)
    ensures NoDuplicates(s) <==> forall x :: multiset(s)[x] <= 1
  {
    if s != [] {
      var init, last := s[..|s| - 1], s[|s| - 1];
      assert s == init + [last];
      NoDuplicatesCount(init);
      if NoDuplicates(s) {
        assert last !in init;
        assert multiset(init)[last] == 0;
      } else if NoDuplicates(init) {
        assert last in init;
        assert multiset(s)[last] >= 2;
      } else {
        var x :| multiset(init)[x] > 1;
        assert multiset(s)[x] > 1;
      }
    }
  }

  lemma {:induction false} SortNoDuplicates<T>(s: seq<T>, le: (T, T) -> bool)
    requires NoDuplicates(s)
    ensures NoDuplicates(Sort(s, le))
  {
    NoDuplicatesCount(s);
    NoDuplicatesCount(Sort(s, le));
  }

  /** A duplicate-free set of elements has one sorted arrangement. */
  lemma {:induction false} SortedUnique<T(!new)>(s: seq<T>, t: seq<T>, le: (T, T) -> bool)
    requires AntiSymmetric(le) && Sorted(s, le) && Sorted(t, le)
    requires NoDuplicates(s) && NoDuplicates(t)
    requires forall x :: x in s <==> x in t
    ensures s == t
  {
    if s == [] {
      assert forall i :: 0 <= i < |t| ==> t[i] in s;
    } else {
      assert s[0] in t && t[0] in s by { assert s[0] in s; if t != [] { assert t[0] in t; } }
      assert s[0] == t[0];
      forall x ensures x in s[1..] <==> x in t[1..] {
        assert x in s[1..] <==> x in s && x != s[0];
        assert x in t[1..] <==> x in t && x != t[0];
      }
      SortedUnique(s[1..], t[1..], le);
      assert s == [s[0]] + s[1..] && t == [t[0]] + t[1..];
    }
  }
}
