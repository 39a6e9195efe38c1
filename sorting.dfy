/**
  A stable insertion sort parameterised by a strict order. The ranker's
  `nsmallest` and `sort_values`, the radar's `sorted` and the splicer's
  reverse sort by track index are all instances of it.
*/
module Sorting {

  /** Python's `min` on two integers. */
  function Min(a: int, b: int): int {
    if a <= b then a else b
  }

  /** `lt` is irreflexive and transitive: a strict (partial) order. */
  ghost predicate StrictOrder<T(!new)>(lt: (T, T) -> bool) {
    && (forall a :: !lt(a, a))
    && (forall a, b, c :: lt(a, b) && lt(b, c) ==> lt(a, c))
  }

  /** No element is strictly before an element that precedes it. */
  ghost predicate SortedBy<T>(s: seq<T>, lt: (T, T) -> bool) {
    forall i, j :: 0 <= i < j < |s| ==> !lt(s[j], s[i])
  }

  /** Inserts `x` just before the first element it is strictly before, so it lands after its equals. */
  function Insert<T>(r: seq<T>, x: T, lt: (T, T) -> bool): (t: seq<T>)
    ensures multiset(t) == multiset(r) + multiset{x}
    ensures |t| == |r| + 1
  {
    if r == [] then [x]
    else if lt(x, r[0]) then [x] + r
    else
      assert r == [r[0]] + r[1..];
      [r[0]] + Insert(r[1..], x, lt)
  }

  /** Insertion puts `x` somewhere and leaves the order of the rest alone. */
  lemma {:induction false} InsertPosition<T>(r: seq<T>, x: T, lt: (T, T) -> bool) returns (k: nat)
    ensures k <= |r| && Insert(r, x, lt) == r[..k] + [x] + r[k..]
  {
    if r == [] || lt(x, r[0]) {
      k := 0;
    } else {
      var k' := InsertPosition(r[1..], x, lt);
      k := k' + 1;
      assert r == [r[0]] + r[1..];
      assert r[..k] == [r[0]] + r[1..][..k'];
      assert r[k..] == r[1..][k'..];
    }
  }

  /** Sorts `s` by `lt`, keeping equal elements in their input order. */
  function SortBy<T>(s: seq<T>, lt: (T, T) -> bool): (r: seq<T>)
    ensures multiset(r) == multiset(s)
    ensures |r| == |s|
  {
    if s == [] then []
    else
      assert s == s[..|s| - 1] + [s[|s| - 1]];
      Insert(SortBy(s[..|s| - 1], lt), s[|s| - 1], lt)
  }

  lemma {:induction false} InsertSorted<T(!new)>(r: seq<T>, x: T, lt: (T, T) -> bool)
    requires StrictOrder(lt)
    requires SortedBy(r, lt)
    ensures SortedBy(Insert(r, x, lt), lt)
  {
    if r != [] && !lt(x, r[0]) {
      var rest := Insert(r[1..], x, lt);
      InsertSorted(r[1..], x, lt);
      NothingBeforeHead(r, x, lt);
      var t := [r[0]] + rest;
      forall i, j | 0 <= i < j < |t|
        ensures !lt(t[j], t[i])
      {
        if i == 0 {
          assert t[j] == rest[j - 1];
        } else {
          assert t[i] == rest[i - 1] && t[j] == rest[j - 1];
        }
      }
    }
  }

  /** When `x` goes after the head, nothing inserted behind the head is strictly before it. */
  lemma NothingBeforeHead<T(!new)>(r: seq<T>, x: T, lt: (T, T) -> bool)
    requires StrictOrder(lt) && SortedBy(r, lt)
    requires r != [] && !lt(x, r[0])
    ensures forall y :: y in Insert(r[1..], x, lt) ==> !lt(y, r[0])
  {
    var rest := Insert(r[1..], x, lt);
    forall y | y in rest
      ensures !lt(y, r[0])
    {
      assert y in multiset(rest);
      if y != x {
        assert y in multiset(r[1..]);
        var k :| 0 <= k < |r[1..]| && r[1..][k] == y;
        assert r[k + 1] == y;
      }
    }
  }

  /** The result of `SortBy` is sorted: the ordering half of its correctness (the multiset half is its ensures). */
  lemma {:induction false} SortByIsSorted<T(!new)>(s: seq<T>, lt: (T, T) -> bool)
    requires StrictOrder(lt)
    ensures SortedBy(SortBy(s, lt), lt)
  {
    if s != [] {
      SortByIsSorted(s[..|s| - 1], lt);
      InsertSorted(SortBy(s[..|s| - 1], lt), s[|s| - 1], lt);
    }
  }

  /** No two elements share a key. */
  ghost predicate DistinctBy<T, K>(s: seq<T>, key: T -> K) {
    forall i, j :: 0 <= i < j < |s| ==> key(s[i]) != key(s[j])
  }

  /** Sorting keeps keys distinct: it only reorders. */
  lemma {:induction false} SortByKeepsDistinct<T, K>(s: seq<T>, lt: (T, T) -> bool, key: T -> K)
    requires DistinctBy(s, key)
    ensures DistinctBy(SortBy(s, lt), key)
  {
    if s != [] {
      var init := s[..|s| - 1];
      var x := s[|s| - 1];
      var r := SortBy(init, lt);
      SortByKeepsDistinct(init, lt, key);
      forall i | 0 <= i < |r|
        ensures key(r[i]) != key(x)
      {
        assert r[i] in multiset(init);
        var m :| 0 <= m < |init| && init[m] == r[i];
        assert s[m] == r[i];
      }
      InsertKeepsDistinct(r, x, lt, key);
    }
  }

  /** Inserting an element whose key is new keeps keys distinct. */
  lemma InsertKeepsDistinct<T, K>(r: seq<T>, x: T, lt: (T, T) -> bool, key: T -> K)
    requires DistinctBy(r, key)
    requires forall i :: 0 <= i < |r| ==> key(r[i]) != key(x)
    ensures DistinctBy(Insert(r, x, lt), key)
  {
    var t := Insert(r, x, lt);
    var k := InsertPosition(r, x, lt);
    forall i, j | 0 <= i < j < |t|
      ensures key(t[i]) != key(t[j])
    {
      if i < k && j > k {
        assert t[i] == r[i] && t[j] == r[j - 1];
      } else if i < k && j < k {
        assert t[i] == r[i] && t[j] == r[j];
      } else if i > k {
        assert t[i] == r[i - 1] && t[j] == r[j - 1];
      }
    }
  }
}
