/** The skeleton of the heading loop: one left-to-right pass over a sequence
    of per-position decisions that threads a set of already-used texts. A
    position whose text is already used is skipped; otherwise, when it is
    taken, the texts it absorbs become used, and when it also yields a value,
    its own text becomes used too. The facts here hold whatever the
    decisions are. */
module Scanning {
  import opened Options
  import opened Seqs

  /** What the loop body decides for one position, independently of the
      used-text set: the position's text, whether it passes the acceptance
      tests, the texts it absorbs, and the value it yields if it gets that far. */
  datatype Decision<C> = Decision(key: string, taken: bool, absorbed: set<string>, outcome: Option<C>)

  /** What one position yields, and the set of used texts afterwards. */
  datatype Step<C> = Step(emitted: Option<C>, seen: set<string>)

  function StepWith<C>(d: Decision<C>, seen: set<string>): (st: Step<C>)
    ensures seen <= st.seen
    ensures st.emitted.Some? <==> d.key !in seen && d.taken && d.outcome.Some?
    ensures st.emitted.Some? ==> st.emitted == d.outcome && d.key in st.seen
    ensures d.key !in seen && d.taken ==> d.absorbed <= st.seen
    ensures st.seen <= seen + d.absorbed + {d.key}
    ensures d.key in seen || !d.taken ==> st.seen == seen
    ensures d.key in st.seen - seen ==> st.emitted.Some? || d.key in d.absorbed
  {
    if d.key in seen || !d.taken then Step(None, seen)
    else
      var used := seen + d.absorbed;
      match d.outcome
      case None => Step(None, used)
      case Some(c) => Step(Some(c), used + {d.key})
  }

  function ScanFrom<C>(ds: seq<Decision<C>>, i: nat, seen: set<string>): (out: seq<C>)
    requires i <= |ds|
    ensures |out| <= |ds| - i
    decreases |ds| - i
  {
    if i == |ds| then []
    else
      var st := StepWith(ds[i], seen);
      (match st.emitted case Some(c) => [c] case None => []) + ScanFrom(ds, i + 1, st.seen)
  }

  /** The set of used texts when the pass reaches position `k`. */
  function SeenAt<C>(ds: seq<Decision<C>>, k: nat): set<string>
    requires k <= |ds|
  {
    if k == 0 then {} else StepWith(ds[k - 1], SeenAt(ds, k - 1)).seen
  }

  /** What position `k` yields during the pass. */
  function EmittedAt<C>(ds: seq<Decision<C>>, k: nat): Option<C>
    requires k < |ds|
  {
    StepWith(ds[k], SeenAt(ds, k)).emitted
  }

  /** Position `j`, reached with its text unused and taken, makes `x` used:
      as an absorbed text, or as its own text when it yields a value. */
  predicate UsedBy<C>(ds: seq<Decision<C>>, j: nat, x: string)
    requires j < |ds|
  {
    ds[j].key !in SeenAt(ds, j) && ds[j].taken && (x in ds[j].absorbed || (ds[j].outcome.Some? && x == ds[j].key))
  }

  /** A text is used when the pass reaches position `k` exactly when some
      earlier position used it. */
  lemma {:induction false} SeenAtExactly<C>(ds: seq<Decision<C>>, k: nat, x: string)
    requires k <= |ds|
    ensures x in SeenAt(ds, k) <==> exists j :: 0 <= j < k && UsedBy(ds, j, x)
  {
    if k > 0 {
      SeenAtExactly(ds, k - 1, x);
      if x in SeenAt(ds, k) && x !in SeenAt(ds, k - 1) {
        assert UsedBy(ds, k - 1, x);
      }
      if j :| 0 <= j < k && UsedBy(ds, j, x) {
        if j == k - 1 {
          assert x in SeenAt(ds, k);
        }
      }
    }
  }

  /** The pass from position `i` on yields exactly what the positions `i..` emit. */
  lemma {:induction false} ScanFromEmissions<C>(ds: seq<Decision<C>>, i: nat)
    requires i <= |ds|
    ensures forall c :: c in ScanFrom(ds, i, SeenAt(ds, i)) <==>
      exists k :: i <= k < |ds| && EmittedAt(ds, k) == Some(c)
    decreases |ds| - i
  {
    if i < |ds| {
      ScanFromEmissions(ds, i + 1);
      var st := StepWith(ds[i], SeenAt(ds, i));
      assert SeenAt(ds, i + 1) == st.seen && EmittedAt(ds, i) == st.emitted;
      var rest := ScanFrom(ds, i + 1, st.seen);
      var all := ScanFrom(ds, i, SeenAt(ds, i));
      assert all == (match st.emitted case Some(c) => [c] case None => []) + rest;
      forall c ensures c in all <==> exists k :: i <= k < |ds| && EmittedAt(ds, k) == Some(c) {
        if c in all && st.emitted != Some(c) {
          assert c in rest;
        }
        if k :| i <= k < |ds| && EmittedAt(ds, k) == Some(c) {
          if k > i {
            assert c in rest;
          }
        }
      }
    }
  }

  /** The whole pass yields exactly what the positions emit. */
  lemma ScanEmissions<C>(ds: seq<Decision<C>>)
    ensures forall c :: c in ScanFrom(ds, 0, {}) <==> exists k :: 0 <= k < |ds| && EmittedAt(ds, k) == Some(c)
  {
    ScanFromEmissions(ds, 0);
  }

  /** What every position yields during the pass. */
  function Emissions<C>(ds: seq<Decision<C>>): (em: seq<Option<C>>)
    ensures |em| == |ds|
    ensures forall k :: 0 <= k < |ds| ==> em[k] == EmittedAt(ds, k)
  {
    seq(|ds|, k requires 0 <= k < |ds| => EmittedAt(ds, k))
  }

  /** The pass from position `i` on yields the values of the yielding
      positions in feed order, each once. */
  lemma {:induction false} ScanFromInOrder<C>(ds: seq<Decision<C>>, i: nat)
    requires i <= |ds|
    ensures ListsValues(Emissions(ds), i, ScanFrom(ds, i, SeenAt(ds, i)), PresentFrom(Emissions(ds), i))
    decreases |ds| - i
  {
    var em := Emissions(ds);
    if i < |ds| {
      ScanFromInOrder(ds, i + 1);
      var st := StepWith(ds[i], SeenAt(ds, i));
      assert SeenAt(ds, i + 1) == st.seen && em[i] == st.emitted;
      var rest := ScanFrom(ds, i + 1, st.seen);
      var restIdx := PresentFrom(em, i + 1);
      if st.emitted.Some? {
        assert ScanFrom(ds, i, SeenAt(ds, i)) == [st.emitted.value] + rest;
        assert PresentFrom(em, i) == [i] + restIdx;
        ListingCons(em, i, st.emitted.value, rest, restIdx);
      } else {
        assert ScanFrom(ds, i, SeenAt(ds, i)) == rest;
        assert PresentFrom(em, i) == restIdx;
      }
    }
  }

  /** The whole pass lists the yielded values in feed order. */
  lemma ScanInOrder<C>(ds: seq<Decision<C>>)
    ensures ListsValues(Emissions(ds), 0, ScanFrom(ds, 0, {}), PresentFrom(Emissions(ds), 0))
  {
    ScanFromInOrder(ds, 0);
  }

  /** A used text stays used. */
  lemma {:induction false} SeenGrows<C>(ds: seq<Decision<C>>, j: nat, k: nat)
    requires j <= k <= |ds|
    ensures SeenAt(ds, j) <= SeenAt(ds, k)
    decreases k - j
  {
    if j < k {
      SeenGrows(ds, j, k - 1);
    }
  }

  /** After a position has yielded, no later position with the same text yields. */
  lemma KeyUsedOnce<C>(ds: seq<Decision<C>>, j: nat, k: nat)
    requires j < k < |ds| && EmittedAt(ds, j).Some? && ds[k].key == ds[j].key
    ensures EmittedAt(ds, k).None?
  {
    SeenGrows(ds, j + 1, k);
  }

  /** After a taken position has absorbed a text, no later position with that text yields. */
  lemma AbsorbedUsed<C>(ds: seq<Decision<C>>, j: nat, k: nat)
    requires j < k < |ds| && ds[j].key !in SeenAt(ds, j) && ds[j].taken && ds[k].key in ds[j].absorbed
    ensures EmittedAt(ds, k).None?
  {
    SeenGrows(ds, j + 1, k);
  }
}
