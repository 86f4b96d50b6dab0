/** The optional value used for "no title found" and "no first-page size". */
module Options {
  datatype Option<+T> = None | Some(value: T)
}

/** Sequence helpers: list comprehensions with a condition, first
    occurrences, and listings of the positions of a sequence that hold a value. */
module Seqs {
  import opened Options

  /** The elements of `xs` satisfying `p`, in their original order. */
  function Filter<T(==,!new)>(xs: seq<T>, p: T -> bool): (r: seq<T>)
    ensures |r| <= |xs|
    ensures forall x :: x in r <==> x in xs && p(x)
    ensures forall x :: multiset(r)[x] == if p(x) then multiset(xs)[x] else 0
  {
    if |xs| == 0 then []
    else
      assert xs == [xs[0]] + xs[1..];
      (if p(xs[0]) then [xs[0]] else []) + Filter(xs[1..], p)
  }

  /** Position of the first occurrence of `x` in `xs`. */
  function IndexOf<T(==)>(xs: seq<T>, x: T): (k: nat)
    requires x in xs
    ensures k < |xs| && xs[k] == x
    ensures forall j :: 0 <= j < k ==> xs[j] != x
  {
    if xs[0] == x then 0 else IndexOf(xs[1..], x) + 1
  }

  predicate Ascending(idx: seq<nat>) {
    forall a, b :: 0 <= a < b < |idx| ==> idx[a] < idx[b]
  }

  /** The positions from `i` on that hold a value, in increasing order. */
  function PresentFrom<T>(em: seq<Option<T>>, i: nat): seq<nat>
    requires i <= |em|
    decreases |em| - i
  {
    if i == |em| then []
    else (if em[i].Some? then [i] else []) + PresentFrom(em, i + 1)
  }

  /** `out` lists, in order, the values held at the positions `idx`, and
      `idx` holds every position from `i` on that holds one, in increasing order. */
  ghost predicate ListsValues<T>(em: seq<Option<T>>, i: nat, out: seq<T>, idx: seq<nat>) {
    && |idx| == |out|
    && Ascending(idx)
    && (forall m :: 0 <= m < |idx| ==> i <= idx[m] < |em| && em[idx[m]] == Some(out[m]))
    && (forall k :: i <= k < |em| && em[k].Some? ==> k in idx)
  }

  /** Putting a position that holds a value in front keeps every listed value at its position. */
  lemma ConsValues<T>(em: seq<Option<T>>, i: nat, c: T, out: seq<T>, idx: seq<nat>)
    requires i < |em| && em[i] == Some(c) && |idx| == |out|
    requires forall m :: 0 <= m < |idx| ==> i + 1 <= idx[m] < |em| && em[idx[m]] == Some(out[m])
    ensures forall m :: 0 <= m < |idx| + 1 ==> i <= ([i] + idx)[m] < |em| && em[([i] + idx)[m]] == Some(([c] + out)[m])
  {
    forall m | 0 < m < |idx| + 1 ensures i <= ([i] + idx)[m] < |em| && em[([i] + idx)[m]] == Some(([c] + out)[m]) {
      assert ([i] + idx)[m] == idx[m - 1] && ([c] + out)[m] == out[m - 1];
    }
  }

  /** Putting a smaller position in front keeps the positions increasing. */
  lemma ConsAscending(i: nat, idx: seq<nat>)
    requires Ascending(idx) && forall m :: 0 <= m < |idx| ==> i < idx[m]
    ensures Ascending([i] + idx)
  {
    forall a, b | 0 <= a < b < |idx| + 1 ensures ([i] + idx)[a] < ([i] + idx)[b] {
      assert ([i] + idx)[b] == idx[b - 1];
      if a > 0 {
        assert ([i] + idx)[a] == idx[a - 1];
      }
    }
  }

  /** Putting position `i` in front of the positions after it that hold a
      value gives all those from `i` on. */
  lemma ConsComplete<T>(em: seq<Option<T>>, i: nat, idx: seq<nat>)
    requires forall k :: i + 1 <= k < |em| && em[k].Some? ==> k in idx
    ensures forall k :: i <= k < |em| && em[k].Some? ==> k in [i] + idx
  {
    forall k | i < k < |em| && em[k].Some? ensures k in [i] + idx {
      assert k in idx;
    }
  }

  /** A position holding a value, put in front of a listing, extends it. */
  lemma ListingCons<T>(em: seq<Option<T>>, i: nat, c: T, out: seq<T>, idx: seq<nat>)
    requires i < |em| && em[i] == Some(c)
    requires ListsValues(em, i + 1, out, idx)
    ensures ListsValues(em, i, [c] + out, [i] + idx)
  {
    ConsValues(em, i, c, out, idx);
    ConsAscending(i, idx);
    ConsComplete(em, i, idx);
  }

  /** A position without a value, put in front of a listing, leaves it a listing. */
  lemma ListingSkip<T>(em: seq<Option<T>>, i: nat, out: seq<T>, idx: seq<nat>)
    requires i < |em| && em[i].None?
    requires ListsValues(em, i + 1, out, idx)
    ensures ListsValues(em, i, out, idx)
  {
  }

  /** What the comprehension keeps at each position of `xs`. */
  function Kept<T>(xs: seq<T>, p: T -> bool): seq<Option<T>> {
    seq(|xs|, k requires 0 <= k < |xs| => if p(xs[k]) then Some(xs[k]) else None)
  }

  /** One step of the comprehension from position `i`. */
  lemma FilterStep<T(!new)>(xs: seq<T>, p: T -> bool, i: nat)
    requires i < |xs|
    ensures Filter(xs[i..], p) == (if p(xs[i]) then [xs[i]] else []) + Filter(xs[i + 1..], p)
  {
    assert xs[i..][1..] == xs[i + 1..];
  }

  /** A kept element at `i` extends the listing from `i + 1`. */
  lemma FilterKeepStep<T(!new)>(xs: seq<T>, p: T -> bool, i: nat)
    requires i < |xs| && p(xs[i])
    requires ListsValues(Kept(xs, p), i + 1, Filter(xs[i + 1..], p), PresentFrom(Kept(xs, p), i + 1))
    ensures ListsValues(Kept(xs, p), i, Filter(xs[i..], p), PresentFrom(Kept(xs, p), i))
  {
    var em := Kept(xs, p);
    FilterStep(xs, p, i);
    assert em[i] == Some(xs[i]);
    assert PresentFrom(em, i) == [i] + PresentFrom(em, i + 1);
    ListingCons(em, i, xs[i], Filter(xs[i + 1..], p), PresentFrom(em, i + 1));
  }

  /** A dropped element at `i` leaves the listing from `i + 1` a listing from `i`. */
  lemma FilterDropStep<T(!new)>(xs: seq<T>, p: T -> bool, i: nat)
    requires i < |xs| && !p(xs[i])
    requires ListsValues(Kept(xs, p), i + 1, Filter(xs[i + 1..], p), PresentFrom(Kept(xs, p), i + 1))
    ensures ListsValues(Kept(xs, p), i, Filter(xs[i..], p), PresentFrom(Kept(xs, p), i))
  {
    var em := Kept(xs, p);
    FilterStep(xs, p, i);
    assert em[i] == None;
    assert PresentFrom(em, i) == PresentFrom(em, i + 1);
    ListingSkip(em, i, Filter(xs[i + 1..], p), PresentFrom(em, i + 1));
  }

  lemma {:induction false} FilterFromInOrder<T(!new)>(xs: seq<T>, p: T -> bool, i: nat)
    requires i <= |xs|
    ensures ListsValues(Kept(xs, p), i, Filter(xs[i..], p), PresentFrom(Kept(xs, p), i))
    decreases |xs| - i
  {
    if i == |xs| {
      assert xs[i..] == [];
    } else {
      FilterFromInOrder(xs, p, i + 1);
      if p(xs[i]) {
        FilterKeepStep(xs, p, i);
      } else {
        FilterDropStep(xs, p, i);
      }
    }
  }

  /** The comprehension keeps the elements satisfying the condition in their
      order, one per position: its `m`-th element is the element at the `m`-th
      position whose element satisfies it. */
  lemma FilterInOrder<T(!new)>(xs: seq<T>, p: T -> bool)
    ensures ListsValues(Kept(xs, p), 0, Filter(xs, p), PresentFrom(Kept(xs, p), 0))
  {
    FilterFromInOrder(xs, p, 0);
    assert xs[0..] == xs;
  }

  /** Past a different head, the first occurrence sits one place later than in the tail. */
  lemma IndexOfTail<T>(xs: seq<T>, x: T)
    requires x in xs && xs[0] != x
    ensures x in xs[1..] && IndexOf(xs, x) == IndexOf(xs[1..], x) + 1
  {
    assert xs == [xs[0]] + xs[1..];
  }

  /** The comprehension keeps the order of first occurrences. */
  lemma {:induction false} FilterKeepsFirstOrder<T(!new)>(xs: seq<T>, p: T -> bool, a: T, b: T)
    requires a in xs && b in xs && p(a) && p(b) && IndexOf(xs, a) < IndexOf(xs, b)
    ensures a in Filter(xs, p) && b in Filter(xs, p)
    ensures IndexOf(Filter(xs, p), a) < IndexOf(Filter(xs, p), b)
    decreases |xs|
  {
    var r := Filter(xs, p);
    if xs[0] == a {
      assert r[0] == a;
    } else {
      IndexOfTail(xs, a);
      IndexOfTail(xs, b);
      FilterKeepsFirstOrder(xs[1..], p, a, b);
      if p(xs[0]) {
        assert r == [xs[0]] + Filter(xs[1..], p);
        IndexOfTail(r, a);
        IndexOfTail(r, b);
        assert r[1..] == Filter(xs[1..], p);
      } else {
        assert r == Filter(xs[1..], p);
      }
    }
  }
}

/** `collections.Counter(xs).most_common(1)[0][0]`. */
module Counting {
  import opened Seqs

  function Count<T(==)>(xs: seq<T>, x: T): nat {
    multiset(xs)[x]
  }

  /** `x` is the value `most_common(1)` picks from `xs`: it occurs in `xs`, no
      value occurs more often, and among the values of maximal count it is the
      one inserted into the counter first (no value at a position before its
      first occurrence has the same count). */
  predicate IsMostCommon<T(==)>(xs: seq<T>, x: T) {
    && x in xs
    && (forall k :: 0 <= k < |xs| ==> Count(xs, xs[k]) <= Count(xs, x))
    && (forall k :: 0 <= k < IndexOf(xs, x) ==> Count(xs, xs[k]) < Count(xs, x))
  }

  /** `best` is what the scan holds after the prefix `xs[..i]`, counts being taken over all of `xs`. */
  predicate LeadsPrefix<T(==)>(xs: seq<T>, i: nat, best: T)
    requires i <= |xs|
  {
    && best in xs
    && IndexOf(xs, best) < i
    && (forall k :: 0 <= k < i ==> Count(xs, xs[k]) <= Count(xs, best))
    && (forall k :: 0 <= k < IndexOf(xs, best) ==> Count(xs, xs[k]) < Count(xs, best))
  }

  /** The scan `max` performs over the counter: the current best is replaced
      only by a value with a strictly larger count. */
  function MostCommonFrom<T(==)>(xs: seq<T>, i: nat, best: T): (r: T)
    requires i <= |xs| && LeadsPrefix(xs, i, best)
    ensures IsMostCommon(xs, r)
    decreases |xs| - i
  {
    if i == |xs| then best
    else if Count(xs, xs[i]) > Count(xs, best) then MostCommonFrom(xs, i + 1, xs[i])
    else MostCommonFrom(xs, i + 1, best)
  }

  function MostCommon<T(==)>(xs: seq<T>): (r: T)
    requires |xs| > 0
    ensures IsMostCommon(xs, r)
  {
    MostCommonFrom(xs, 1, xs[0])
  }

  /** The first-inserted tie-break makes the most common value unique. */
  lemma MostCommonUnique<T>(xs: seq<T>, a: T, b: T)
    requires IsMostCommon(xs, a) && IsMostCommon(xs, b)
    ensures a == b
  {
    var ka := IndexOf(xs, a);
    var kb := IndexOf(xs, b);
    assert Count(xs, xs[ka]) <= Count(xs, b) && Count(xs, xs[kb]) <= Count(xs, a);
    assert ka == kb;
  }
}
