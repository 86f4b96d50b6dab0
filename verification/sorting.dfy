/** Python's stable `list.sort(key=...)` for two-part keys, and
    `sorted(set(xs), reverse=True)` for sizes. */
module Sorting {
  import opened Seqs

  /** A sort key compared lexicographically, like a Python pair `(major, minor)`. */
  datatype Pos = Pos(major: real, minor: real)

  predicate PosLe(a: Pos, b: Pos) {
    a.major < b.major || (a.major == b.major && a.minor <= b.minor)
  }

  predicate SortedBy<T>(xs: seq<T>, key: T -> Pos) {
    forall i, j :: 0 <= i < j < |xs| ==> PosLe(key(xs[i]), key(xs[j]))
  }

  /** Places `x` in front of the first element whose key is not smaller. */
  function Insert<T(==)>(x: T, ys: seq<T>, key: T -> Pos): (r: seq<T>)
    ensures multiset(r) == multiset(ys) + multiset{x}
  {
    if |ys| == 0 then [x]
    else if PosLe(key(x), key(ys[0])) then [x] + ys
    else
      assert ys == [ys[0]] + ys[1..];
      [ys[0]] + Insert(x, ys[1..], key)
  }

  lemma {:induction false} InsertSorted<T>(x: T, ys: seq<T>, key: T -> Pos)
    requires SortedBy(ys, key)
    ensures SortedBy(Insert(x, ys, key), key)
    decreases |ys|
  {
    if |ys| > 0 && !PosLe(key(x), key(ys[0])) {
      var rest := Insert(x, ys[1..], key);
      InsertSorted(x, ys[1..], key);
      forall j | 0 <= j < |rest| ensures PosLe(key(ys[0]), key(rest[j])) {
        assert rest[j] in multiset(rest);
        if rest[j] != x {
          assert rest[j] in ys[1..];
        }
      }
    }
  }

  /** Stable insertion sort: `sorted(xs, key=key)`. */
  function SortBy<T(==)>(xs: seq<T>, key: T -> Pos): (r: seq<T>)
    ensures SortedBy(r, key)
    ensures multiset(r) == multiset(xs)
  {
    if |xs| == 0 then []
    else
      var rest := SortBy(xs[1..], key);
      InsertSorted(xs[0], rest, key);
      assert xs == [xs[0]] + xs[1..];
      Insert(xs[0], rest, key)
  }

  /** The elements of `xs` whose key is exactly `k`, in their order in `xs`. */
  function WithKey<T>(xs: seq<T>, key: T -> Pos, k: Pos): seq<T> {
    if |xs| == 0 then []
    else (if key(xs[0]) == k then [xs[0]] else []) + WithKey(xs[1..], key, k)
  }

  /** The condition "the key is exactly `k`". */
  function HasKey<T>(key: T -> Pos, k: Pos): T -> bool {
    (x: T) => key(x) == k
  }

  /** `WithKey` is the comprehension over the condition "the key is `k`". */
  lemma {:induction false} WithKeyIsFilter<T(!new)>(xs: seq<T>, key: T -> Pos, k: Pos)
    ensures WithKey(xs, key, k) == Filter(xs, HasKey(key, k))
    decreases |xs|
  {
    if |xs| > 0 {
      WithKeyIsFilter(xs[1..], key, k);
    }
  }

  lemma {:induction false} InsertWithKey<T>(x: T, ys: seq<T>, key: T -> Pos, k: Pos)
    ensures WithKey(Insert(x, ys, key), key, k) == (if key(x) == k then [x] else []) + WithKey(ys, key, k)
    decreases |ys|
  {
    if |ys| == 0 {
    } else if PosLe(key(x), key(ys[0])) {
      assert ([x] + ys)[1..] == ys;
    } else {
      InsertWithKey(x, ys[1..], key, k);
      assert ([ys[0]] + Insert(x, ys[1..], key))[1..] == Insert(x, ys[1..], key);
    }
  }

  /** Stability: elements with equal keys keep their relative order. */
  lemma {:induction false} SortByStable<T>(xs: seq<T>, key: T -> Pos, k: Pos)
    ensures WithKey(SortBy(xs, key), key, k) == WithKey(xs, key, k)
    decreases |xs|
  {
    if |xs| > 0 {
      SortByStable(xs[1..], key, k);
      InsertWithKey(xs[0], SortBy(xs[1..], key), key, k);
    }
  }

  predicate StrictlyDescending(xs: seq<real>) {
    forall i, j :: 0 <= i < j < |xs| ==> xs[i] > xs[j]
  }

  /** Inserts `x` into a descending list unless it is already there. */
  function InsertDistinct(x: real, ys: seq<real>): (r: seq<real>)
    ensures forall y :: y in r <==> y == x || y in ys
  {
    if |ys| == 0 then [x]
    else if x > ys[0] then [x] + ys
    else if x == ys[0] then ys
    else [ys[0]] + InsertDistinct(x, ys[1..])
  }

  lemma {:induction false} InsertDistinctDescending(x: real, ys: seq<real>)
    requires StrictlyDescending(ys)
    ensures StrictlyDescending(InsertDistinct(x, ys))
    decreases |ys|
  {
    if |ys| > 0 && x < ys[0] {
      var rest := InsertDistinct(x, ys[1..]);
      InsertDistinctDescending(x, ys[1..]);
      forall j | 0 <= j < |rest| ensures ys[0] > rest[j] {
        assert rest[j] in rest;
      }
    }
  }

  /** `sorted(set(xs), reverse=True)`: each value of `xs` once, largest first. */
  function DistinctDescending(xs: seq<real>): (r: seq<real>)
    ensures StrictlyDescending(r)
    ensures forall y :: y in r <==> y in xs
  {
    if |xs| == 0 then []
    else
      var rest := DistinctDescending(xs[1..]);
      InsertDistinctDescending(xs[0], rest);
      assert xs == [xs[0]] + xs[1..];
      InsertDistinct(xs[0], rest)
  }

  /** Number of distinct values in `sizes` larger than `x`. */
  function Rank(x: real, sizes: set<real>): nat {
    |set y | y in sizes && y > x|
  }

  lemma {:induction false} DistinctCard(xs: seq<real>)
    requires StrictlyDescending(xs)
    ensures |set y | y in xs| == |xs|
    decreases |xs|
  {
    if |xs| > 0 {
      DistinctCard(xs[1..]);
      assert (set y | y in xs) == {xs[0]} + (set y | y in xs[1..]);
      assert xs[0] !in xs[1..];
    }
  }

  /** In a strictly descending list, a value's position is its rank among the list's values. */
  lemma RankIsIndex(xs: seq<real>, k: nat)
    requires StrictlyDescending(xs) && k < |xs|
    ensures Rank(xs[k], set y | y in xs) == k
  {
    var values := set y | y in xs;
    var bigger := set y | y in values && y > xs[k];
    assert bigger == set y | y in xs[..k] by {
      forall y | y in bigger ensures y in xs[..k] {
        var m :| 0 <= m < |xs| && xs[m] == y;
        assert m < k;
        assert xs[..k][m] == y;
      }
    }
    DistinctCard(xs[..k]);
  }
}
