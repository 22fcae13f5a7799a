/**
 * Generic operations on sequences used by the record store's queries:
 * filtering (a SQL WHERE clause), a stable insertion sort (a SQL ORDER BY),
 * first-match lookup (getFirstAsync) and the ordering facts about them.
 */
module Sequences {
  import opened Optional

  /** Every earlier element stands in relation `before` to every later one. */
  ghost predicate Pairwise<T(!new)>(s: seq<T>, before: (T, T) -> bool) {
    forall i, j :: 0 <= i < j < |s| ==> before(s[i], s[j])
  }

  /** `before` is a total preorder: any two values are comparable, and it is transitive. */
  ghost predicate TotalPreorder<T(!new)>(before: (T, T) -> bool) {
    && (forall a, b :: before(a, b) || before(b, a))
    && (forall a, b, c :: before(a, b) && before(b, c) ==> before(a, c))
  }

  ghost predicate Transitive<T(!new)>(before: (T, T) -> bool) {
    forall a, b, c :: before(a, b) && before(b, c) ==> before(a, c)
  }

  /** The elements of `s` that satisfy `keep`, in their original order. */
  function Filter<T(!new)>(s: seq<T>, keep: T -> bool): (r: seq<T>)
    ensures |r| <= |s|
    ensures forall x :: x in r <==> x in s && keep(x)
  {
    if s == [] then []
    else if keep(s[0]) then [s[0]] + Filter(s[1..], keep)
    else Filter(s[1..], keep)
  }

  /** The first element of `s` that satisfies `wanted`, if any. */
  function FirstWhere<T(!new)>(s: seq<T>, wanted: T -> bool): (r: Option<T>)
    ensures r.Some? ==> r.value in s && wanted(r.value)
    ensures r.None? ==> forall x :: x in s ==> !wanted(x)
  {
    if s == [] then None
    else if wanted(s[0]) then Some(s[0])
    else FirstWhere(s[1..], wanted)
  }

  /** Inserts `x` in front of the first element it may precede. */
  function InsertBy<T(!new)>(x: T, s: seq<T>, before: (T, T) -> bool): (r: seq<T>)
    ensures multiset(r) == multiset(s) + multiset{x}
  {
    if s == [] || before(x, s[0]) then [x] + s
    else
      assert s == [s[0]] + s[1..];
      [s[0]] + InsertBy(x, s[1..], before)
  }

  /** Stable insertion sort: equal elements keep their relative order. */
  function SortBy<T(!new)>(s: seq<T>, before: (T, T) -> bool): (r: seq<T>)
    ensures multiset(r) == multiset(s)
  {
    if s == [] then []
    else
      assert s == [s[0]] + s[1..];
      InsertBy(s[0], SortBy(s[1..], before), before)
  }

  lemma {:induction false} FilterPairwise<T(!new)>(s: seq<T>, keep: T -> bool, before: (T, T) -> bool)
    requires Pairwise(s, before)
    ensures Pairwise(Filter(s, keep), before)
  {
    if s != [] {
      FilterPairwise(s[1..], keep, before);
      if keep(s[0]) {
        var r := Filter(s, keep);
        forall i, j | 0 <= i < j < |r| ensures before(r[i], r[j]) {
          if i == 0 {
            assert r[j] in Filter(s[1..], keep);
            var k :| 0 <= k < |s[1..]| && s[1..][k] == r[j];
            assert s[k + 1] == r[j];
          }
        }
      }
    }
  }

  lemma PairwiseAppend<T(!new)>(s: seq<T>, y: T, before: (T, T) -> bool)
    requires Pairwise(s, before)
    requires forall i :: 0 <= i < |s| ==> before(s[i], y)
    ensures Pairwise(s + [y], before)
  {
  }

  lemma {:induction false} InsertBySorted<T(!new)>(x: T, s: seq<T>, before: (T, T) -> bool)
    requires TotalPreorder(before)
    requires Pairwise(s, before)
    ensures Pairwise(InsertBy(x, s, before), before)
  {
    if s == [] || before(x, s[0]) {
      var r := InsertBy(x, s, before);
      forall i, j | 0 <= i < j < |r| ensures before(r[i], r[j]) {
        if i == 0 && j > 1 {
          assert before(x, s[0]) && before(s[0], s[j - 1]);
        }
      }
    } else {
      InsertBySorted(x, s[1..], before);
      var tail := InsertBy(x, s[1..], before);
      assert before(s[0], x);
      forall y | y in tail ensures before(s[0], y) {
        assert y in multiset(tail);
        if y != x {
          assert y in multiset(s[1..]);
          var k :| 0 <= k < |s[1..]| && s[1..][k] == y;
          assert s[k + 1] == y;
        }
      }
      var r := [s[0]] + tail;
      forall i, j | 0 <= i < j < |r| ensures before(r[i], r[j]) {
        if i == 0 {
          assert r[j] in tail;
        }
      }
    }
  }

  /** SortBy puts the elements in order whenever `before` is a total preorder. */
  lemma {:induction false} SortBySorted<T(!new)>(s: seq<T>, before: (T, T) -> bool)
    requires TotalPreorder(before)
    ensures Pairwise(SortBy(s, before), before)
  {
    if s != [] {
      SortBySorted(s[1..], before);
      InsertBySorted(s[0], SortBy(s[1..], before), before);
    }
  }

  lemma {:induction false} FilterInsertSkipped<T(!new)>(x: T, s: seq<T>, keep: T -> bool, before: (T, T) -> bool)
    requires !keep(x)
    ensures Filter(InsertBy(x, s, before), keep) == Filter(s, keep)
  {
    if s == [] || before(x, s[0]) {
      assert InsertBy(x, s, before)[1..] == s;
    } else {
      FilterInsertSkipped(x, s[1..], keep, before);
      assert InsertBy(x, s, before)[1..] == InsertBy(x, s[1..], before);
    }
  }

  lemma {:induction false} FilterInsertKept<T(!new)>(x: T, s: seq<T>, keep: T -> bool, before: (T, T) -> bool)
    requires keep(x)
    requires Transitive(before)
    requires Pairwise(s, before)
    ensures Filter(InsertBy(x, s, before), keep) == InsertBy(x, Filter(s, keep), before)
  {
    if s == [] {
    } else if before(x, s[0]) {
      assert InsertBy(x, s, before)[1..] == s;
      var f := Filter(s, keep);
      if f != [] {
        assert f[0] in s;
        var k :| 0 <= k < |s| && s[k] == f[0];
        if k > 0 {
          assert before(s[0], s[k]);
        }
        assert before(x, f[0]);
      }
    } else {
      FilterInsertKept(x, s[1..], keep, before);
      assert InsertBy(x, s, before)[1..] == InsertBy(x, s[1..], before);
      if keep(s[0]) {
        assert Filter(s, keep) == [s[0]] + Filter(s[1..], keep);
        assert Filter(s, keep)[1..] == Filter(s[1..], keep);
      } else {
        assert Filter(s, keep) == Filter(s[1..], keep);
      }
    }
  }

  /** Sorting and then filtering gives the same sequence as filtering and then sorting. */
  lemma {:induction false} FilterSortCommute<T(!new)>(s: seq<T>, keep: T -> bool, before: (T, T) -> bool)
    requires TotalPreorder(before)
    ensures Filter(SortBy(s, before), keep) == SortBy(Filter(s, keep), before)
  {
    if s != [] {
      FilterSortCommute(s[1..], keep, before);
      SortBySorted(s[1..], before);
      if keep(s[0]) {
        FilterInsertKept(s[0], SortBy(s[1..], before), keep, before);
        assert Filter(s, keep) == [s[0]] + Filter(s[1..], keep);
        assert Filter(s, keep)[1..] == Filter(s[1..], keep);
      } else {
        FilterInsertSkipped(s[0], SortBy(s[1..], before), keep, before);
      }
    }
  }

  lemma {:induction false} FilterNone<T(!new)>(s: seq<T>, keep: T -> bool)
    requires forall x :: x in s ==> !keep(x)
    ensures Filter(s, keep) == []
  {
    if s != [] {
      assert s[0] in s;
      assert forall x :: x in s[1..] ==> x in s;
      FilterNone(s[1..], keep);
    }
  }

  /** Permutations of each other have the same elements. */
  lemma SameMembers<T>(a: seq<T>, b: seq<T>)
    requires multiset(a) == multiset(b)
    ensures forall x :: x in a <==> x in b
  {
    forall x ensures x in a <==> x in b {
      assert x in a <==> x in multiset(a);
      assert x in b <==> x in multiset(b);
    }
  }

  lemma {:induction false} FilterConcat<T(!new)>(a: seq<T>, b: seq<T>, keep: T -> bool)
    ensures Filter(a + b, keep) == Filter(a, keep) + Filter(b, keep)
  {
    if a == [] {
      assert a + b == b;
    } else {
      var ab := a + b;
      assert ab != [] && ab[0] == a[0] && ab[1..] == a[1..] + b;
      FilterConcat(a[1..], b, keep);
      if keep(a[0]) {
        calc {
          Filter(ab, keep);
          [a[0]] + Filter(a[1..] + b, keep);
          [a[0]] + (Filter(a[1..], keep) + Filter(b, keep));
          ([a[0]] + Filter(a[1..], keep)) + Filter(b, keep);
        }
      } else {
        assert Filter(ab, keep) == Filter(a[1..] + b, keep);
      }
    }
  }

  /** Removing the element at `k` removes one occurrence of it. */
  lemma RemoveAtMultiset<T>(b: seq<T>, k: nat)
    requires k < |b|
    ensures multiset(b[..k] + b[k + 1..]) == multiset(b) - multiset{b[k]}
  {
    assert b == b[..k] + [b[k]] + b[k + 1..];
  }

  /** Removing the element at `k` removes it from the filtered sequence when `keep` holds of it. */
  lemma RemoveAtFilterCount<T(!new)>(b: seq<T>, k: nat, keep: T -> bool)
    requires k < |b|
    ensures |Filter(b, keep)| == |Filter(b[..k] + b[k + 1..], keep)| + (if keep(b[k]) then 1 else 0)
  {
    assert b == b[..k] + [b[k]] + b[k + 1..];
    FilterConcat(b[..k] + [b[k]], b[k + 1..], keep);
    FilterConcat(b[..k], [b[k]], keep);
    FilterConcat(b[..k], b[k + 1..], keep);
  }

  /** Two permutations of each other have equally many elements that satisfy `keep`. */
  lemma {:induction false} FilterCountPermutation<T(!new)>(a: seq<T>, b: seq<T>, keep: T -> bool)
    requires multiset(a) == multiset(b)
    ensures |Filter(a, keep)| == |Filter(b, keep)|
    decreases |a|
  {
    if a != [] {
      assert a[0] in multiset(b);
      var k :| 0 <= k < |b| && b[k] == a[0];
      RemoveAtMultiset(b, k);
      assert a == [a[0]] + a[1..];
      assert multiset(a[1..]) == multiset(a) - multiset{a[0]};
      FilterCountPermutation(a[1..], b[..k] + b[k + 1..], keep);
      RemoveAtFilterCount(b, k, keep);
    }
  }
}
