/**
 * `Array.prototype.sort` with a comparator, which ECMAScript (since its 2019
 * edition) requires to be stable. The model is a stable insertion sort over
 * `le(a, b)`, read as "the comparator does not put `a` after `b`"
 * (`compare(a, b) <= 0`). For a total preorder it returns a sorted
 * permutation in which equivalent elements keep their input order.
 */
module Sorting {
  import opened Seqs

  /** `le` is total and transitive (hence also reflexive). */
  ghost predicate TotalPreorder<T(!new)>(le: (T, T) -> bool)
  {
    && (forall a, b :: le(a, b) || le(b, a))
    && (forall a, b, c :: le(a, b) && le(b, c) ==> le(a, c))
  }

  predicate Sorted<T>(s: seq<T>, le: (T, T) -> bool)
  {
    forall i, j :: 0 <= i < j < |s| ==> le(s[i], s[j])
  }

  /** The elements `le` considers equivalent to `y`. */
  function EquivTo<T>(le: (T, T) -> bool, y: T): T -> bool
  {
    e => le(e, y) && le(y, e)
  }

  /** Places `x` after every element of `s` that is not strictly greater than it. */
  function Insert<T>(s: seq<T>, x: T, le: (T, T) -> bool): seq<T>
    decreases |s|
  {
    if s == [] || le(s[|s| - 1], x) then s + [x]
    else Insert(s[..|s| - 1], x, le) + [s[|s| - 1]]
  }

  /** Stable insertion sort: each element in input order is inserted behind its equals. */
  function SortBy<T>(xs: seq<T>, le: (T, T) -> bool): seq<T>
  {
    if xs == [] then [] else Insert(SortBy(xs[..|xs| - 1], le), xs[|xs| - 1], le)
  }

  lemma {:induction false} InsertMultiset<T>(s: seq<T>, x: T, le: (T, T) -> bool)
    ensures multiset(Insert(s, x, le)) == multiset(s) + multiset{x}
    decreases |s|
  {
    if !(s == [] || le(s[|s| - 1], x)) {
      InsertMultiset(s[..|s| - 1], x, le);
      assert s == s[..|s| - 1] + [s[|s| - 1]];
    }
  }

  /** Sorting only reorders: the result is a permutation of the input. */
  lemma {:induction false} SortByPermutes<T>(xs: seq<T>, le: (T, T) -> bool)
    ensures multiset(SortBy(xs, le)) == multiset(xs)
    decreases |xs|
  {
    if xs != [] {
      SortByPermutes(xs[..|xs| - 1], le);
      InsertMultiset(SortBy(xs[..|xs| - 1], le), xs[|xs| - 1], le);
      assert xs == xs[..|xs| - 1] + [xs[|xs| - 1]];
    }
  }

  lemma {:induction false} InsertSorted<T(!new)>(s: seq<T>, x: T, le: (T, T) -> bool)
    requires TotalPreorder(le) && Sorted(s, le)
    ensures Sorted(Insert(s, x, le), le)
    decreases |s|
  {
    var r := Insert(s, x, le);
    if s == [] || le(s[|s| - 1], x) {
      forall i, j | 0 <= i < j < |r| ensures le(r[i], r[j]) {
        if j == |s| && i < |s| - 1 {
          assert le(s[i], s[|s| - 1]);
        }
      }
    } else {
      var init, last := s[..|s| - 1], s[|s| - 1];
      InsertSorted(init, x, le);
      InsertMultiset(init, x, le);
      var r' := Insert(init, x, le);
      assert le(x, last);
      forall i, j | 0 <= i < j < |r| ensures le(r[i], r[j]) {
        if j == |r| - 1 {
          assert r[i] == r'[i];
          assert r[i] in multiset(r');
          if r[i] != x {
            assert r[i] in multiset(init);
            var k :| 0 <= k < |init| && init[k] == r[i];
          }
        }
      }
    }
  }

  /** With a total preorder, the sorted list is in comparator order. */
  lemma {:induction false} SortBySorted<T(!new)>(xs: seq<T>, le: (T, T) -> bool)
    requires TotalPreorder(le)
    ensures Sorted(SortBy(xs, le), le)
    decreases |xs|
  {
    if xs != [] {
      SortBySorted(xs[..|xs| - 1], le);
      InsertSorted(SortBy(xs[..|xs| - 1], le), xs[|xs| - 1], le);
    }
  }

  /** An element strictly greater than `x` is never equivalent to the same `y` as `x`. */
  lemma NotBothEquiv<T(!new)>(le: (T, T) -> bool, x: T, z: T, y: T)
    requires TotalPreorder(le) && !le(z, x)
    ensures !(EquivTo(le, y)(x) && EquivTo(le, y)(z))
  {
  }

  lemma {:induction false} InsertStable<T(!new)>(s: seq<T>, x: T, le: (T, T) -> bool, y: T)
    requires forall z :: !le(z, x) ==> !(EquivTo(le, y)(x) && EquivTo(le, y)(z))
    ensures Filter(Insert(s, x, le), EquivTo(le, y)) == Filter(s, EquivTo(le, y)) + Filter([x], EquivTo(le, y))
    decreases |s|
  {
    var p := EquivTo(le, y);
    if s == [] || le(s[|s| - 1], x) {
      FilterAppend(s, [x], p);
    } else {
      var init, last := s[..|s| - 1], s[|s| - 1];
      var fx, fl := Filter([x], p), Filter([last], p);
      var a := Filter(init, p);
      InsertStable(init, x, le, y);
      assert Filter(Insert(s, x, le), p) == a + fx + fl by {
        assert Insert(s, x, le) == Insert(init, x, le) + [last];
        FilterAppend(Insert(init, x, le), [last], p);
      }
      assert Filter(s, p) == a + fl by {
        assert s == init + [last];
        FilterAppend(init, [last], p);
      }
      assert fx == [] || fl == [] by {
        FilterSingle(x, p);
        FilterSingle(last, p);
      }
      SwapSingletons(a, fx, fl);
    }
  }

  lemma SwapSingletons<T>(a: seq<T>, b: seq<T>, c: seq<T>)
    requires b == [] || c == []
    ensures a + b + c == a + c + b
  {
  }

  /** Stability: the elements equivalent to any `y` appear in the output in the same order as in the input. */
  lemma {:induction false} SortByStable<T(!new)>(xs: seq<T>, le: (T, T) -> bool, y: T)
    requires TotalPreorder(le)
    ensures Filter(SortBy(xs, le), EquivTo(le, y)) == Filter(xs, EquivTo(le, y))
    decreases |xs|
  {
    if xs != [] {
      var init, x := xs[..|xs| - 1], xs[|xs| - 1];
      SortByStable(init, le, y);
      forall z | !le(z, x) ensures !(EquivTo(le, y)(x) && EquivTo(le, y)(z)) {
        NotBothEquiv(le, x, z, y);
      }
      InsertStable(SortBy(init, le), x, le, y);
      FilterAppend(init, [x], EquivTo(le, y));
      assert xs == init + [x];
    }
  }
}
