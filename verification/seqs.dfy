/** The usual optional value, standing for JavaScript's `undefined` results. */
module Options {
  datatype Option<T> = None | Some(value: T)
}

/**
 * Generic list operations the components use: `Array.prototype.filter`,
 * order-preserving subsequences, and "keep the first element for each key"
 * (the `seen`-set idiom of the deduplication helpers).
 */
module Seqs {
  import opened Options

  function Min(a: int, b: int): int { if a <= b then a else b }
  function Max(a: int, b: int): int { if a >= b then a else b }

  /** `xs.filter(p)`, defined element by element from the end so that a loop over `xs` can follow it. */
  function Filter<T>(xs: seq<T>, p: T -> bool): (r: seq<T>)
    ensures |r| <= |xs|
    ensures forall i :: 0 <= i < |r| ==> p(r[i])
  {
    if xs == [] then []
    else Filter(xs[..|xs| - 1], p) + (if p(xs[|xs| - 1]) then [xs[|xs| - 1]] else [])
  }

  /** The filtered list holds exactly the elements of `xs` that satisfy `p`. */
  lemma {:induction false} FilterMembers<T>(xs: seq<T>, p: T -> bool)
    ensures forall x :: x in Filter(xs, p) <==> x in xs && p(x)
    decreases |xs|
  {
    if xs != [] {
      var init := xs[..|xs| - 1];
      FilterMembers(init, p);
      assert xs == init + [xs[|xs| - 1]];
    }
  }

  /** The conjunction of two predicates, for filters applied one after another. */
  function And<T>(p: T -> bool, q: T -> bool): T -> bool
  {
    x => p(x) && q(x)
  }

  lemma FilterSingle<T>(x: T, p: T -> bool)
    ensures Filter([x], p) == if p(x) then [x] else []
  {
    assert [x][..0] == [];
  }

  /** Filtering distributes over concatenation. */
  lemma {:induction false} FilterAppend<T>(a: seq<T>, b: seq<T>, p: T -> bool)
    ensures Filter(a + b, p) == Filter(a, p) + Filter(b, p)
    decreases |b|
  {
    if b == [] {
      assert a + b == a;
    } else {
      var b' := b[..|b| - 1];
      assert (a + b)[..|a + b| - 1] == a + b';
      FilterAppend(a, b', p);
    }
  }

  /** Two filters in a row keep exactly what satisfies both predicates. */
  lemma {:induction false} FilterFilter<T>(xs: seq<T>, p: T -> bool, q: T -> bool)
    ensures Filter(Filter(xs, p), q) == Filter(xs, And(p, q))
    decreases |xs|
  {
    if xs != [] {
      var init, x := xs[..|xs| - 1], xs[|xs| - 1];
      FilterFilter(init, p, q);
      var tail := if p(x) then [x] else [];
      FilterAppend(Filter(init, p), tail, q);
      FilterSingle(x, q);
    }
  }

  /** Filtering a prefix gives a prefix of the filtered list. */
  lemma {:induction false} FilterPrefix<T>(xs: seq<T>, n: nat, p: T -> bool)
    requires n <= |xs|
    ensures Filter(xs[..n], p) <= Filter(xs, p)
    decreases |xs| - n
  {
    if n < |xs| {
      FilterPrefix(xs, n + 1, p);
      assert xs[..n + 1][..n] == xs[..n];
    } else {
      assert xs[..n] == xs;
    }
  }

  /** A predicate and its negation split a list into two parts that together hold every element. */
  lemma {:induction false} FilterSplit<T>(xs: seq<T>, p: T -> bool, q: T -> bool)
    requires forall x :: q(x) == !p(x)
    ensures multiset(Filter(xs, p)) + multiset(Filter(xs, q)) == multiset(xs)
    decreases |xs|
  {
    if xs != [] {
      var init := xs[..|xs| - 1];
      FilterSplit(init, p, q);
      assert xs == init + [xs[|xs| - 1]];
    }
  }

  /** Filtering with a predicate that every element satisfies changes nothing. */
  lemma {:induction false} FilterKeepsAll<T>(xs: seq<T>, p: T -> bool)
    requires forall i :: 0 <= i < |xs| ==> p(xs[i])
    ensures Filter(xs, p) == xs
    decreases |xs|
  {
    if xs != [] {
      FilterKeepsAll(xs[..|xs| - 1], p);
    }
  }

  // ---------------------------------------------------------------- subsequences

  /** `a` is `b` with some elements removed and the rest kept in order. */
  predicate IsSubseq<T(==)>(a: seq<T>, b: seq<T>)
    decreases |b|
  {
    a == [] ||
    (b != [] &&
      ((a[|a| - 1] == b[|b| - 1] && IsSubseq(a[..|a| - 1], b[..|b| - 1])) ||
       IsSubseq(a, b[..|b| - 1])))
  }

  lemma {:induction false} SubseqRefl<T>(a: seq<T>)
    ensures IsSubseq(a, a)
    decreases |a|
  {
    if a != [] { SubseqRefl(a[..|a| - 1]); }
  }

  /** A subsequence of a subsequence is a subsequence. */
  lemma {:induction false} SubseqTrans<T>(a: seq<T>, b: seq<T>, c: seq<T>)
    requires IsSubseq(a, b) && IsSubseq(b, c)
    ensures IsSubseq(a, c)
    decreases |c|
  {
    if a == [] {
    } else {
      assert b != [] && c != [];
      var a', b', c' := a[..|a| - 1], b[..|b| - 1], c[..|c| - 1];
      if b[|b| - 1] == c[|c| - 1] && IsSubseq(b', c') {
        if a[|a| - 1] == b[|b| - 1] && IsSubseq(a', b') {
          SubseqTrans(a', b', c');
        } else {
          SubseqTrans(a, b', c');
        }
      } else {
        SubseqTrans(a, b, c');
      }
    }
  }

  /** Every element of a subsequence is an element of the sequence. */
  lemma {:induction false} SubseqMembers<T>(a: seq<T>, b: seq<T>)
    requires IsSubseq(a, b)
    ensures forall x :: x in a ==> x in b
    decreases |b|
  {
    if a != [] {
      var a', b' := a[..|a| - 1], b[..|b| - 1];
      if a[|a| - 1] == b[|b| - 1] && IsSubseq(a', b') {
        SubseqMembers(a', b');
        assert a == a' + [a[|a| - 1]];
        assert b == b' + [b[|b| - 1]];
      } else {
        SubseqMembers(a, b');
        assert b == b' + [b[|b| - 1]];
      }
    }
  }

  /** A filter keeps what it keeps in order. */
  lemma {:induction false} FilterIsSubseq<T>(xs: seq<T>, p: T -> bool)
    ensures IsSubseq(Filter(xs, p), xs)
    decreases |xs|
  {
    if xs != [] {
      var init, x := xs[..|xs| - 1], xs[|xs| - 1];
      FilterIsSubseq(init, p);
      var r := Filter(xs, p);
      if p(x) {
        assert r[..|r| - 1] == Filter(init, p);
      } else {
        assert r == Filter(init, p);
      }
    }
  }

  // ---------------------------------------------------------------- first element per key

  function Keys<T, K>(xs: seq<T>, key: T -> K): set<K>
  {
    set i | 0 <= i < |xs| :: key(xs[i])
  }

  lemma KeysSnoc<T, K>(xs: seq<T>, key: T -> K)
    requires xs != []
    ensures Keys(xs, key) == Keys(xs[..|xs| - 1], key) + {key(xs[|xs| - 1])}
  {
    var init := xs[..|xs| - 1];
    forall k | k in Keys(xs, key) ensures k in Keys(init, key) + {key(xs[|xs| - 1])} {
      var i :| 0 <= i < |xs| && key(xs[i]) == k;
      if i < |xs| - 1 { assert init[i] == xs[i]; }
    }
    forall k | k in Keys(init, key) ensures k in Keys(xs, key) {
      var i :| 0 <= i < |init| && key(init[i]) == k;
      assert xs[i] == init[i];
    }
  }

  /** The keys of distinct positions of `xs` are distinct. */
  predicate UniqueKeys<T, K(==)>(xs: seq<T>, key: T -> K)
  {
    forall i, j :: 0 <= i < j < |xs| ==> key(xs[i]) != key(xs[j])
  }

  /** The first element of `xs` whose key is `k`, if any. */
  function FirstWithKey<T, K(==)>(xs: seq<T>, k: K, key: T -> K): Option<T>
  {
    if xs == [] then None
    else
      var f := FirstWithKey(xs[..|xs| - 1], k, key);
      if f.Some? then f
      else if key(xs[|xs| - 1]) == k then Some(xs[|xs| - 1])
      else None
  }

  /** Some element has key `k` exactly when `k` is one of the keys. */
  lemma {:induction false} FirstWithKeyFound<T, K>(xs: seq<T>, k: K, key: T -> K)
    ensures FirstWithKey(xs, k, key).Some? <==> k in Keys(xs, key)
    ensures FirstWithKey(xs, k, key).Some? ==>
      FirstWithKey(xs, k, key).value in xs && key(FirstWithKey(xs, k, key).value) == k
    decreases |xs|
  {
    if xs != [] {
      FirstWithKeyFound(xs[..|xs| - 1], k, key);
      KeysSnoc(xs, key);
    }
  }

  /** `xs` without every element whose key already occurred earlier in `xs`. */
  function Distinct<T, K(==)>(xs: seq<T>, key: T -> K): seq<T>
  {
    if xs == [] then []
    else
      var init, x := xs[..|xs| - 1], xs[|xs| - 1];
      Distinct(init, key) + (if key(x) in Keys(init, key) then [] else [x])
  }

  /** Keeping the first element per key loses no key. */
  lemma {:induction false} DistinctKeys<T, K>(xs: seq<T>, key: T -> K)
    ensures Keys(Distinct(xs, key), key) == Keys(xs, key)
    decreases |xs|
  {
    if xs != [] {
      var init, x := xs[..|xs| - 1], xs[|xs| - 1];
      DistinctKeys(init, key);
      KeysSnoc(xs, key);
      var d, r := Distinct(init, key), Distinct(xs, key);
      if key(x) !in Keys(init, key) {
        assert r == d + [x];
        KeysSnoc(r, key);
        assert r[..|r| - 1] == d;
      } else {
        assert r == d;
      }
    }
  }

  /** Keeping the first element per key never keeps one key twice. */
  lemma {:induction false} DistinctUnique<T, K>(xs: seq<T>, key: T -> K)
    ensures UniqueKeys(Distinct(xs, key), key)
    decreases |xs|
  {
    if xs != [] {
      var init, x := xs[..|xs| - 1], xs[|xs| - 1];
      DistinctUnique(init, key);
      DistinctKeys(init, key);
      var d, r := Distinct(init, key), Distinct(xs, key);
      if key(x) !in Keys(init, key) {
        assert r == d + [x];
        forall i, j | 0 <= i < j < |r| ensures key(r[i]) != key(r[j]) {
          if j == |r| - 1 {
            assert key(r[i]) in Keys(d, key);
          }
        }
      }
    }
  }

  /** Keeping the first element per key keeps elements in their original order. */
  lemma {:induction false} DistinctSubseq<T, K>(xs: seq<T>, key: T -> K)
    ensures IsSubseq(Distinct(xs, key), xs)
    decreases |xs|
  {
    if xs != [] {
      var init, x := xs[..|xs| - 1], xs[|xs| - 1];
      DistinctSubseq(init, key);
      var d, r := Distinct(init, key), Distinct(xs, key);
      if key(x) !in Keys(init, key) {
        assert r[..|r| - 1] == d;
      } else {
        assert r == d;
      }
    }
  }

  /** Each element kept is the first in `xs` with its key. */
  lemma {:induction false} DistinctFirst<T, K>(xs: seq<T>, key: T -> K)
    ensures forall i :: 0 <= i < |Distinct(xs, key)| ==>
      FirstWithKey(xs, key(Distinct(xs, key)[i]), key) == Some(Distinct(xs, key)[i])
    decreases |xs|
  {
    if xs != [] {
      var init, x := xs[..|xs| - 1], xs[|xs| - 1];
      DistinctFirst(init, key);
      var d, r := Distinct(init, key), Distinct(xs, key);
      forall i | 0 <= i < |d| ensures FirstWithKey(xs, key(d[i]), key) == Some(d[i]) {
        assert FirstWithKey(init, key(d[i]), key) == Some(d[i]);
      }
      if key(x) !in Keys(init, key) {
        assert r == d + [x];
        FirstWithKeyFound(init, key(x), key);
      } else {
        assert r == d;
      }
    }
  }

  /** Keeping the first element per key loses no key, never keeps one key
      twice, keeps elements in their original order, and each element it keeps
      is the first in `xs` with that key. */
  lemma DistinctSpec<T, K>(xs: seq<T>, key: T -> K)
    ensures var r := Distinct(xs, key);
      && Keys(r, key) == Keys(xs, key)
      && UniqueKeys(r, key)
      && IsSubseq(r, xs)
      && forall i :: 0 <= i < |r| ==> FirstWithKey(xs, key(r[i]), key) == Some(r[i])
  {
    DistinctKeys(xs, key);
    DistinctUnique(xs, key);
    DistinctSubseq(xs, key);
    DistinctFirst(xs, key);
  }

  /** On a list whose keys are already distinct, nothing is dropped. */
  lemma {:induction false} DistinctOfUnique<T, K>(xs: seq<T>, key: T -> K)
    requires UniqueKeys(xs, key)
    ensures Distinct(xs, key) == xs
    decreases |xs|
  {
    if xs != [] {
      var init := xs[..|xs| - 1];
      assert UniqueKeys(init, key);
      DistinctOfUnique(init, key);
      assert key(xs[|xs| - 1]) !in Keys(init, key);
    }
  }

  /** Deduplicating twice is the same as deduplicating once. */
  lemma DistinctIdempotent<T, K>(xs: seq<T>, key: T -> K)
    ensures Distinct(Distinct(xs, key), key) == Distinct(xs, key)
  {
    DistinctSpec(xs, key);
    DistinctOfUnique(Distinct(xs, key), key);
  }

  /** Deduplicating a prefix gives a prefix of the deduplicated list. */
  lemma {:induction false} DistinctPrefix<T, K>(xs: seq<T>, n: nat, key: T -> K)
    requires n <= |xs|
    ensures Distinct(xs[..n], key) <= Distinct(xs, key)
    decreases |xs| - n
  {
    if n < |xs| {
      DistinctPrefix(xs, n + 1, key);
      assert xs[..n + 1][..n] == xs[..n];
    } else {
      assert xs[..n] == xs;
    }
  }

  /** Dropping elements by a predicate that ignores the key-ed ones changes nothing about which
      of the remaining elements comes first for a key that passes the predicate. */
  lemma {:induction false} FirstWithKeyFilter<T, K>(xs: seq<T>, k: K, key: T -> K, p: T -> bool)
    requires forall x :: key(x) == k ==> p(x)
    ensures FirstWithKey(Filter(xs, p), k, key) == FirstWithKey(xs, k, key)
    decreases |xs|
  {
    if xs != [] {
      var init, x := xs[..|xs| - 1], xs[|xs| - 1];
      FirstWithKeyFilter(init, k, key, p);
      var f := Filter(init, p);
      if p(x) {
        assert Filter(xs, p)[..|Filter(xs, p)| - 1] == f;
      } else {
        assert Filter(xs, p) == f;
      }
    }
  }

  /** One more element: it is kept exactly when its key is new. */
  lemma DistinctSnoc<T, K>(xs: seq<T>, x: T, key: T -> K)
    ensures Distinct(xs + [x], key) ==
      Distinct(xs, key) + (if key(x) in Keys(Distinct(xs, key), key) then [] else [x])
  {
    assert (xs + [x])[..|xs|] == xs;
    DistinctSpec(xs, key);
  }

  /** A prefix is a subsequence. */
  lemma {:induction false} PrefixIsSubseq<T>(a: seq<T>, n: nat)
    requires n <= |a|
    ensures IsSubseq(a[..n], a)
    decreases |a|
  {
    if n == |a| {
      assert a[..n] == a;
      SubseqRefl(a);
    } else {
      PrefixIsSubseq(a[..|a| - 1], n);
      assert a[..|a| - 1][..n] == a[..n];
    }
  }

  /** There are at most as many keys as elements, and exactly as many when no key repeats. */
  lemma {:induction false} KeysCount<T, K>(xs: seq<T>, key: T -> K)
    ensures |Keys(xs, key)| <= |xs|
    ensures UniqueKeys(xs, key) <==> |Keys(xs, key)| == |xs|
    decreases |xs|
  {
    if xs == [] {
      assert Keys(xs, key) == {};
    } else {
      var init, x := xs[..|xs| - 1], xs[|xs| - 1];
      KeysCount(init, key);
      KeysSnoc(xs, key);
      if key(x) in Keys(init, key) {
        var i :| 0 <= i < |init| && key(init[i]) == key(x);
        assert !UniqueKeys(xs, key) by { assert key(xs[i]) == key(xs[|xs| - 1]); }
      } else {
        if UniqueKeys(xs, key) {
          assert UniqueKeys(init, key) by {
            forall i, j | 0 <= i < j < |init| ensures key(init[i]) != key(init[j]) {
              assert init[i] == xs[i] && init[j] == xs[j];
            }
          }
        }
        if |Keys(xs, key)| == |xs| {
          assert UniqueKeys(init, key);
          forall i, j | 0 <= i < j < |xs| ensures key(xs[i]) != key(xs[j]) {
            if j < |xs| - 1 {
              assert init[i] == xs[i] && init[j] == xs[j];
            } else {
              assert key(init[i]) in Keys(init, key);
            }
          }
        }
      }
    }
  }

  /** Two orderings of the same elements have the same keys. */
  lemma PermutationKeys<T, K>(a: seq<T>, b: seq<T>, key: T -> K)
    requires multiset(a) == multiset(b)
    ensures Keys(a, key) == Keys(b, key)
  {
    forall k | k in Keys(a, key) ensures k in Keys(b, key) {
      var i :| 0 <= i < |a| && key(a[i]) == k;
      assert a[i] in multiset(b);
      var j :| 0 <= j < |b| && b[j] == a[i];
    }
    forall k | k in Keys(b, key) ensures k in Keys(a, key) {
      var i :| 0 <= i < |b| && key(b[i]) == k;
      assert b[i] in multiset(a);
      var j :| 0 <= j < |a| && a[j] == b[i];
    }
  }

  /** Reordering keeps keys distinct. */
  lemma PermutationUniqueKeys<T, K>(a: seq<T>, b: seq<T>, key: T -> K)
    requires multiset(a) == multiset(b) && UniqueKeys(b, key)
    ensures UniqueKeys(a, key)
  {
    PermutationKeys(a, b, key);
    KeysCount(a, key);
    KeysCount(b, key);
    assert |a| == |multiset(a)| == |multiset(b)| == |b|;
  }

  /** `xs.indexOf(x)`: the first position holding `x`, or -1. */
  function IndexIn<T(==)>(xs: seq<T>, x: T): (r: int)
    ensures -1 <= r < |xs|
    ensures r == -1 <==> x !in xs
    ensures r >= 0 ==> xs[r] == x && x !in xs[..r]
  {
    if xs == [] then -1
    else if xs[0] == x then 0
    else
      var r := IndexIn(xs[1..], x);
      if r == -1 then -1
      else
        assert xs[..r + 1] == [xs[0]] + xs[1..][..r];
        r + 1
  }

  /** One more element at the end: it is kept when the predicate holds. */
  lemma FilterSnoc<T>(xs: seq<T>, x: T, p: T -> bool)
    ensures Filter(xs + [x], p) == Filter(xs, p) + (if p(x) then [x] else [])
  {
    assert (xs + [x])[..|xs|] == xs;
  }

  /** One iteration of a loop that keeps the first element per key with a
      `seen` set of keys: the keys seen grow by the element's key, and the
      element is kept exactly when its key was not seen. */
  lemma DistinctStep<T, K>(xs: seq<T>, i: nat, key: T -> K)
    requires i < |xs|
    ensures var d, x := Distinct(xs[..i], key), xs[i];
      && Keys(Distinct(xs[..i + 1], key), key) == Keys(d, key) + {key(x)}
      && (key(x) in Keys(d, key) ==> Keys(Distinct(xs[..i + 1], key), key) == Keys(d, key))
      && Distinct(xs[..i + 1], key) == d + (if key(x) in Keys(d, key) then [] else [x])
  {
    var d, x := Distinct(xs[..i], key), xs[i];
    assert xs[..i + 1] == xs[..i] + [x];
    DistinctSnoc(xs[..i], x, key);
    if key(x) in Keys(d, key) {
      assert d + [] == d;
      assert Distinct(xs[..i + 1], key) == d;
      assert Keys(d, key) + {key(x)} == Keys(d, key);
    } else {
      KeysSnoc(d + [x], key);
      assert (d + [x])[..|d|] == d;
    }
  }

  /** The same iteration seen through a filter, for loops that sort the kept elements into lists. */
  lemma DistinctFilterStep<T, K>(xs: seq<T>, i: nat, key: T -> K, p: T -> bool)
    requires i < |xs|
    ensures var d, x := Distinct(xs[..i], key), xs[i];
      Filter(Distinct(xs[..i + 1], key), p) ==
        Filter(d, p) + (if key(x) !in Keys(d, key) && p(x) then [x] else [])
  {
    var d, x := Distinct(xs[..i], key), xs[i];
    DistinctStep(xs, i, key);
    if key(x) in Keys(d, key) {
      assert d + [] == d;
    } else {
      FilterSnoc(d, x, p);
    }
  }

  /** Pointwise form of `FilterMembers`. */
  lemma FilterMember<T>(xs: seq<T>, p: T -> bool, x: T)
    requires x in Filter(xs, p)
    ensures x in xs && p(x)
  {
    FilterMembers(xs, p);
  }

  /** An element kept by `Distinct` comes from `xs` and is the first there with its key. */
  lemma DistinctMember<T, K>(xs: seq<T>, key: T -> K, x: T)
    requires x in Distinct(xs, key)
    ensures x in xs && FirstWithKey(xs, key(x), key) == Some(x)
  {
    var r := Distinct(xs, key);
    DistinctSpec(xs, key);
    SubseqMembers(r, xs);
    var i :| 0 <= i < |r| && r[i] == x;
  }

  /** `Distinct` keeps one element per key. */
  lemma DistinctCount<T, K>(xs: seq<T>, key: T -> K)
    ensures UniqueKeys(Distinct(xs, key), key)
    ensures Keys(Distinct(xs, key), key) == Keys(xs, key)
    ensures |Distinct(xs, key)| == |Keys(xs, key)|
  {
    DistinctSpec(xs, key);
    KeysCount(Distinct(xs, key), key);
  }

  /** A reordering of a list with distinct keys has distinct keys, the same keys, and the same length. */
  lemma PermutationCount<T, K>(a: seq<T>, b: seq<T>, key: T -> K)
    requires multiset(a) == multiset(b) && UniqueKeys(b, key)
    ensures UniqueKeys(a, key) && Keys(a, key) == Keys(b, key) && |a| == |b|
  {
    PermutationUniqueKeys(a, b, key);
    PermutationKeys(a, b, key);
    assert |a| == |multiset(a)| == |multiset(b)| == |b|;
  }

  /** A prefix of a list with distinct keys has distinct keys. */
  lemma PrefixUniqueKeys<T, K>(xs: seq<T>, n: nat, key: T -> K)
    requires n <= |xs| && UniqueKeys(xs, key)
    ensures UniqueKeys(xs[..n], key)
  {
    forall i, j | 0 <= i < j < n ensures key(xs[..n][i]) != key(xs[..n][j]) {
      assert xs[..n][i] == xs[i] && xs[..n][j] == xs[j];
    }
  }

  lemma KeysCons<T, K>(xs: seq<T>, key: T -> K)
    requires xs != []
    ensures Keys(xs, key) == {key(xs[0])} + Keys(xs[1..], key)
  {
    forall k | k in Keys(xs, key) ensures k in {key(xs[0])} + Keys(xs[1..], key) {
      var i :| 0 <= i < |xs| && key(xs[i]) == k;
      if i > 0 { assert xs[1..][i - 1] == xs[i]; }
    }
    forall k | k in Keys(xs[1..], key) ensures k in Keys(xs, key) {
      var i :| 0 <= i < |xs[1..]| && key(xs[1..][i]) == k;
      assert xs[i + 1] == xs[1..][i];
    }
  }
}
