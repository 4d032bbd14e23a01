/** Sorting by an integer key, keeping the order of equal keys, as Array.prototype.sort and ORDER BY do. */
module Ordering {

  function Insert<T>(s: seq<T>, key: T -> int, x: T): seq<T> {
    if s == [] || key(s[|s| - 1]) <= key(x) then s + [x]
    else Insert(s[..|s| - 1], key, x) + [s[|s| - 1]]
  }

  function Sorted<T>(s: seq<T>, key: T -> int): seq<T> {
    if s == [] then [] else Insert(Sorted(s[..|s| - 1], key), key, s[|s| - 1])
  }

  ghost predicate Ascending<T>(s: seq<T>, key: T -> int) {
    forall i, j :: 0 <= i < j < |s| ==> key(s[i]) <= key(s[j])
  }

  ghost predicate StrictlyAscending<T>(s: seq<T>, key: T -> int) {
    forall i, j :: 0 <= i < j < |s| ==> key(s[i]) < key(s[j])
  }

  lemma {:induction false} InsertMembers<T(!new)>(s: seq<T>, key: T -> int, x: T)
    ensures |Insert(s, key, x)| == |s| + 1
    ensures forall y :: y in Insert(s, key, x) <==> y in s || y == x
  {
    if s != [] && key(s[|s| - 1]) > key(x) {
      InsertMembers(s[..|s| - 1], key, x);
      assert s == s[..|s| - 1] + [s[|s| - 1]];
    }
  }

  lemma {:induction false} InsertAscends<T(!new)>(s: seq<T>, key: T -> int, x: T)
    requires Ascending(s, key)
    ensures Ascending(Insert(s, key, x), key)
  {
    if s == [] || key(s[|s| - 1]) <= key(x) {
    } else {
      var front, last := s[..|s| - 1], s[|s| - 1];
      InsertAscends(front, key, x);
      InsertMembers(front, key, x);
      var r := Insert(front, key, x);
      forall y | y in r ensures key(y) <= key(last) {
        if y in front { var k :| 0 <= k < |front| && front[k] == y; assert s[k] == y; }
      }
      assert forall i :: 0 <= i < |r| ==> r[i] in r;
    }
  }

  /** Sorting keeps the elements and puts them in order. */
  lemma {:induction false} SortedSorts<T(!new)>(s: seq<T>, key: T -> int)
    ensures |Sorted(s, key)| == |s| && Ascending(Sorted(s, key), key)
    ensures forall y :: y in Sorted(s, key) <==> y in s
  {
    if s != [] {
      var front, last := s[..|s| - 1], s[|s| - 1];
      SortedSorts(front, key);
      InsertMembers(Sorted(front, key), key, last);
      InsertAscends(Sorted(front, key), key, last);
      assert s == front + [last];
    }
  }

  /** What is already in order stays as it is. */
  lemma {:induction false} SortedIdentity<T(!new)>(s: seq<T>, key: T -> int)
    requires Ascending(s, key)
    ensures Sorted(s, key) == s
  {
    if s != [] {
      SortedIdentity(s[..|s| - 1], key);
      assert s == s[..|s| - 1] + [s[|s| - 1]];
    }
  }

  ghost predicate DistinctKeys<T>(s: seq<T>, key: T -> int) {
    forall i, j :: 0 <= i < j < |s| ==> key(s[i]) != key(s[j])
  }

  lemma {:induction false} InsertDistinct<T(!new)>(s: seq<T>, key: T -> int, x: T)
    requires DistinctKeys(s, key) && forall y <- s :: key(y) != key(x)
    ensures DistinctKeys(Insert(s, key, x), key)
  {
    if s != [] && key(s[|s| - 1]) > key(x) {
      var front, last := s[..|s| - 1], s[|s| - 1];
      InsertDistinct(front, key, x);
      InsertMembers(front, key, x);
      var r := Insert(front, key, x);
      forall y | y in r ensures key(y) != key(last) {
        if y in front { var k :| 0 <= k < |front| && front[k] == y; assert s[k] == y; }
      }
      assert forall i :: 0 <= i < |r| ==> r[i] in r;
    }
  }

  /** Distinct keys come out strictly increasing. */
  lemma {:induction false} SortedStrictly<T(!new)>(s: seq<T>, key: T -> int)
    requires DistinctKeys(s, key)
    ensures StrictlyAscending(Sorted(s, key), key)
  {
    SortedKeepsDistinct(s, key);
    SortedSorts(s, key);
    var r := Sorted(s, key);
    forall i, j | 0 <= i < j < |r| ensures key(r[i]) < key(r[j]) {
      assert key(r[i]) != key(r[j]);
    }
  }

  lemma {:induction false} SortedKeepsDistinct<T(!new)>(s: seq<T>, key: T -> int)
    requires DistinctKeys(s, key)
    ensures DistinctKeys(Sorted(s, key), key)
  {
    if s != [] {
      var front, last := s[..|s| - 1], s[|s| - 1];
      SortedKeepsDistinct(front, key);
      SortedSorts(front, key);
      forall y | y in Sorted(front, key) ensures key(y) != key(last) {
        var k :| 0 <= k < |front| && front[k] == y;
        assert s[k] == y;
      }
      InsertDistinct(Sorted(front, key), key, last);
    }
  }

  // ---- Counting distinct numbers ----------------------------------------------------------------------------------

  ghost predicate Distinct(s: seq<int>) {
    forall i, j :: 0 <= i < j < |s| ==> s[i] != s[j]
  }

  ghost function Elements(s: seq<int>): set<int> {
    set x | x in s
  }

  lemma {:induction false} ElementsSize(s: seq<int>)
    ensures |Elements(s)| <= |s|
    ensures |Elements(s)| == |s| <==> Distinct(s)
  {
    if s != [] {
      var front, last := s[..|s| - 1], s[|s| - 1];
      ElementsSize(front);
      assert s == front + [last];
      assert Elements(s) == Elements(front) + {last};
      if last in front {
        assert Elements(s) == Elements(front);
        var k :| 0 <= k < |front| && front[k] == last;
        assert s[k] == s[|s| - 1];
      } else {
        assert forall k :: 0 <= k < |front| ==> front[k] in front;
      }
    }
  }

  /** As many distinct numbers as `t` has, all of them in `t`, are all of `t`. */
  lemma SameSizeCovers(s: seq<int>, t: seq<int>)
    requires |s| == |t| && Distinct(s) && forall x <- s :: x in t
    ensures Distinct(t) && forall y <- t :: y in s
  {
    ElementsSize(s);
    ElementsSize(t);
    assert Elements(s) <= Elements(t);
    SubsetSize(Elements(s), Elements(t));
    assert forall y <- t :: y in Elements(t);
  }

  lemma SubsetSize(a: set<int>, b: set<int>)
    requires a <= b
    ensures |a| <= |b| && (|a| == |b| ==> a == b)
  {
    assert b == a + (b - a);
    assert |b| == |a| + |b - a|;
    if |a| == |b| { assert b - a == {}; }
  }

  /** n increasing numbers between 1 and n are 1, 2, .., n. */
  lemma {:induction false} FillsRange(s: seq<int>, k: nat)
    requires k < |s| && (forall i, j :: 0 <= i < j < |s| ==> s[i] < s[j]) && forall x <- s :: 1 <= x <= |s|
    ensures s[k] == k + 1
  {
    AtLeast(s, k);
    AtMost(s, k);
    assert s[0] in s && s[|s| - 1] in s;
  }

  lemma {:induction false} AtLeast(s: seq<int>, k: nat)
    requires k < |s| && forall i, j :: 0 <= i < j < |s| ==> s[i] < s[j]
    ensures s[k] >= s[0] + k
  {
    if k > 0 { AtLeast(s, k - 1); }
  }

  lemma {:induction false} AtMost(s: seq<int>, k: nat)
    requires k < |s| && forall i, j :: 0 <= i < j < |s| ==> s[i] < s[j]
    ensures s[k] <= s[|s| - 1] - (|s| - 1 - k)
    decreases |s| - k
  {
    if k < |s| - 1 { AtMost(s, k + 1); }
  }
}
