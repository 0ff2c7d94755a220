/**
  Python's `sorted` on values compared by a string key (a path's name): a
  stable sort in code-point order, written as an insertion sort.
 */
module Sorting {
  import opened PyStr

  /** Every element's key is at most every later element's key. */
  predicate SortedBy<T>(xs: seq<T>, key: T -> string)
  {
    forall i, j :: 0 <= i < j < |xs| ==> StrLeq(key(xs[i]), key(xs[j]))
  }

  /** Inserts `x` after every element whose key is not greater than its own (so equal keys keep their order). */
  function InsertBy<T>(x: T, sorted: seq<T>, key: T -> string): seq<T>
    decreases |sorted|
  {
    if sorted == [] then [x]
    else if StrLeq(key(sorted[|sorted| - 1]), key(x)) then sorted + [x]
    else InsertBy(x, sorted[..|sorted| - 1], key) + [sorted[|sorted| - 1]]
  }

  /** `sorted(xs, key=key)` */
  function SortBy<T>(xs: seq<T>, key: T -> string): seq<T>
    decreases |xs|
  {
    if xs == [] then []
    else InsertBy(xs[|xs| - 1], SortBy(xs[..|xs| - 1], key), key)
  }

  lemma StrLeqReflexive(a: string)
    ensures StrLeq(a, a)
  {
    StrLeqTotal(a, a);
  }

  /** Insertion adds exactly the one element. */
  lemma {:induction false} InsertByPermutes<T>(x: T, sorted: seq<T>, key: T -> string)
    ensures multiset(InsertBy(x, sorted, key)) == multiset(sorted) + multiset{x}
    decreases |sorted|
  {
    if sorted != [] {
      var n := |sorted| - 1;
      assert sorted == sorted[..n] + [sorted[n]];
      if !StrLeq(key(sorted[n]), key(x)) {
        InsertByPermutes(x, sorted[..n], key);
      }
    }
  }

  /** Insertion into a sorted sequence keeps it sorted. */
  lemma {:induction false} InsertByKeepsSorted<T>(x: T, sorted: seq<T>, key: T -> string)
    requires SortedBy(sorted, key)
    ensures SortedBy(InsertBy(x, sorted, key), key)
    decreases |sorted|
  {
    if sorted != [] {
      var n := |sorted| - 1;
      var last := sorted[n];
      if StrLeq(key(last), key(x)) {
        var r := sorted + [x];
        forall i, j | 0 <= i < j < |r| ensures StrLeq(key(r[i]), key(r[j])) {
          if j == n + 1 && i < n {
            StrLeqTransitive(key(sorted[i]), key(last), key(x));
          }
        }
      } else {
        StrLeqTotal(key(last), key(x));
        var prefix := sorted[..n];
        assert SortedBy(prefix, key);
        InsertByKeepsSorted(x, prefix, key);
        InsertByPermutes(x, prefix, key);
        var ins := InsertBy(x, prefix, key);
        forall i | 0 <= i < |ins| ensures StrLeq(key(ins[i]), key(last)) {
          assert ins[i] in multiset(ins);
          if ins[i] != x {
            var k :| 0 <= k < n && prefix[k] == ins[i];
            assert sorted[k] == ins[i];
          }
        }
      }
    }
  }

  /** The sort is a permutation of its input. */
  lemma {:induction false} SortByPermutes<T>(xs: seq<T>, key: T -> string)
    ensures multiset(SortBy(xs, key)) == multiset(xs)
    decreases |xs|
  {
    if xs != [] {
      var n := |xs| - 1;
      SortByPermutes(xs[..n], key);
      InsertByPermutes(xs[n], SortBy(xs[..n], key), key);
      assert xs == xs[..n] + [xs[n]];
    }
  }

  /** The sort's output is in key order. */
  lemma {:induction false} SortByIsSorted<T>(xs: seq<T>, key: T -> string)
    ensures SortedBy(SortBy(xs, key), key)
    decreases |xs|
  {
    if xs != [] {
      var n := |xs| - 1;
      SortByIsSorted(xs[..n], key);
      InsertByKeepsSorted(xs[n], SortBy(xs[..n], key), key);
    }
  }

  /** `sorted(xs)[-1]` is one of `xs` whose key is the greatest. */
  lemma LastOfSortIsGreatest<T>(xs: seq<T>, key: T -> string)
    requires xs != []
    ensures var s := SortBy(xs, key);
      |s| == |xs| && s[|s| - 1] in xs &&
      forall y :: y in xs ==> StrLeq(key(y), key(s[|s| - 1]))
  {
    var s := SortBy(xs, key);
    SortByPermutes(xs, key);
    SortByIsSorted(xs, key);
    assert |s| == |multiset(s)| == |multiset(xs)| == |xs|;
    var top := s[|s| - 1];
    assert top in multiset(s);
    forall y | y in xs ensures StrLeq(key(y), key(top)) {
      assert y in multiset(s);
      var k :| 0 <= k < |s| && s[k] == y;
      if k == |s| - 1 {
        StrLeqReflexive(key(top));
      }
    }
  }
}
