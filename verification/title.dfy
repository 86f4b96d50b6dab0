/** Title detection: the first page's size tiers are searched from the
    largest down; within a tier the spans in the top third of the page are
    taken in (y0, x0) order and the first bold span of 3 to 15 words and at
    least 12 points becomes the title. Every span with the title's page and
    bounding box is then removed from the pool. */
module Title {
  import opened Options
  import opened Seqs
  import opened Sorting
  import opened Spans
  import Text

  const MinTitleWords: nat := 3
  const MaxTitleWords: nat := 15
  const MinTitleSize: real := 12.0

  /** The typographic test a title must pass. */
  predicate TitleShape(s: Span) {
    MinTitleWords <= WordCount(s) <= MaxTitleWords && IsBold(s) && s.size >= MinTitleSize
  }

  /** The placeholder title has two words. */
  lemma UntitledWords()
    ensures |Text.Split(Untitled)| == 2
  {
    var a, b := "Untitled", "Document";
    assert Untitled == a + [' '] + b;
    assert Text.NoSpace(a) && Text.NoSpace(b);
    Text.WordStartsOfWord(a);
    Text.WordStartsOfWord(b);
    Text.WordStartsAcrossSpace(a, b, true);
    Text.SplitCountsWords(Untitled);
  }

  /** No title-shaped span reads "Untitled Document", so the source's
      test of the title against the placeholder stops the tier loop exactly
      when a title span was found. */
  lemma TitleNeverUntitled(s: Span)
    requires TitleShape(s)
    ensures s.text != Untitled
  {
    UntitledWords();
  }

  predicate InTopThird(s: Span, height: real) {
    s.bbox.y0 < height / 3.0
  }

  /** A span the title search can accept: first page, top third, title-shaped. */
  predicate TitleCandidate(s: Span, height: real) {
    s.page == 0 && InTopThird(s, height) && TitleShape(s)
  }

  function TopLeft(s: Span): Pos {
    Pos(s.bbox.y0, s.bbox.x0)
  }

  predicate OnFirstPage(s: Span) {
    s.page == 0
  }

  /** `first_page_spans`: the spans of page 0, in feed order. */
  function FirstPage(spans: seq<Span>): seq<Span> {
    Filter(spans, OnFirstPage)
  }

  /** `first_page_sizes`: the distinct sizes of first-page spans, largest first. */
  function FirstPageSizes(spans: seq<Span>): (tiers: seq<real>)
    ensures StrictlyDescending(tiers)
    ensures forall x :: x in tiers <==> exists s :: s in spans && s.page == 0 && s.size == x
  {
    var first := FirstPage(spans);
    var sizes := SpanSizes(first);
    forall x ensures x in sizes <==> exists s :: s in spans && s.page == 0 && s.size == x {
      if x in sizes {
        var k :| 0 <= k < |sizes| && sizes[k] == x;
        assert first[k] in spans;
      }
      if s :| s in spans && s.page == 0 && s.size == x {
        var k :| 0 <= k < |first| && first[k] == s;
        assert sizes[k] == x;
      }
    }
    DistinctDescending(sizes)
  }

  /** The condition a first-page span meets to be considered for one size. */
  function InTier(height: real, size: real): Span -> bool {
    (s: Span) => s.size == size && InTopThird(s, height)
  }

  /** `potential_titles` for one size before the sort: the first-page spans
      of that size in the top third of the page, in feed order. */
  function TierPool(spans: seq<Span>, height: real, size: real): seq<Span> {
    Filter(FirstPage(spans), InTier(height, size))
  }

  /** The tier pool holds exactly the first-page spans of its size in the top third. */
  lemma TierPoolMembers(spans: seq<Span>, height: real, size: real)
    ensures forall s :: s in TierPool(spans, height, size) <==>
      s in spans && s.page == 0 && s.size == size && InTopThird(s, height)
  {
    var first := FirstPage(spans);
    assert forall s :: s in first <==> s in spans && s.page == 0;
  }

  /** `potential_titles` for one size: the first-page spans of that size in the
      top third of the page, sorted by (y0, x0); spans with the same (y0, x0)
      keep their feed order. */
  function Tier(spans: seq<Span>, height: real, size: real): (tier: seq<Span>)
    ensures SortedBy(tier, TopLeft)
    ensures forall s :: s in tier <==> s in spans && s.page == 0 && s.size == size && InTopThird(s, height)
    ensures forall k :: WithKey(tier, TopLeft, k) == WithKey(TierPool(spans, height, size), TopLeft, k)
  {
    var pool := TierPool(spans, height, size);
    var sorted := SortBy(pool, TopLeft);
    TierPoolMembers(spans, height, size);
    assert forall s :: s in sorted <==> s in multiset(sorted);
    forall k ensures WithKey(sorted, TopLeft, k) == WithKey(pool, TopLeft, k) {
      SortByStable(pool, TopLeft, k);
    }
    sorted
  }

  /** `tier[k]` is the first title-shaped span of `tier` at or after index `i`. */
  predicate FirstShapedAt(tier: seq<Span>, i: nat, k: int) {
    i <= k < |tier| && TitleShape(tier[k]) && forall j :: i <= j < k ==> !TitleShape(tier[j])
  }

  /** The index of the first title-shaped span of `tier` at or after index `i`. */
  function FirstTitleShaped(tier: seq<Span>, i: nat): (r: Option<nat>)
    requires i <= |tier|
    ensures r.None? <==> forall k :: i <= k < |tier| ==> !TitleShape(tier[k])
    ensures r.Some? ==> FirstShapedAt(tier, i, r.value)
    decreases |tier| - i
  {
    if i == |tier| then None
    else if TitleShape(tier[i]) then Some(i)
    else FirstTitleShaped(tier, i + 1)
  }

  /** Within a sorted tier, the first title-shaped span is top-left-most among the title-shaped ones. */
  lemma FirstShapedIsTopLeft(tier: seq<Span>, k: nat)
    requires SortedBy(tier, TopLeft) && FirstShapedAt(tier, 0, k)
    ensures forall s :: s in tier && TitleShape(s) ==> PosLe(TopLeft(tier[k]), TopLeft(s))
  {
    forall s | s in tier && TitleShape(s) ensures PosLe(TopLeft(tier[k]), TopLeft(s)) {
      var j :| 0 <= j < |tier| && tier[j] == s;
      assert k <= j;
    }
  }

  /** No candidate of the tier's size at the same (y0, x0) comes before the
      first title-shaped span of the tier in feed order: the stable sort keeps
      such spans in feed order, so the earliest one is met first. */
  lemma FirstShapedIsEarliest(spans: seq<Span>, height: real, size: real, k: nat)
    requires FirstShapedAt(Tier(spans, height, size), 0, k)
    ensures var t := Tier(spans, height, size)[k];
      && t in spans
      && forall j :: 0 <= j < IndexOf(spans, t) && TitleCandidate(spans[j], height) && spans[j].size == size ==>
           TopLeft(spans[j]) != TopLeft(t)
  {
    var tier := Tier(spans, height, size);
    var t := tier[k];
    assert t in tier;
    forall j | 0 <= j < IndexOf(spans, t) && TitleCandidate(spans[j], height) && spans[j].size == size
      ensures TopLeft(spans[j]) != TopLeft(t)
    {
      var s := spans[j];
      if TopLeft(s) == TopLeft(t) {
        assert IndexOf(spans, s) <= j;
        assert s in tier && s != t;
        var i := IndexOf(tier, s);
        assert TitleShape(tier[i]) && i != k;
        var key := TopLeft(t);
        var first := FirstPage(spans);
        var pool := TierPool(spans, height, size);
        WithKeyIsFilter(tier, TopLeft, key);
        FilterKeepsFirstOrder(tier, HasKey(TopLeft, key), t, s);
        FilterKeepsFirstOrder(spans, OnFirstPage, s, t);
        FilterKeepsFirstOrder(first, InTier(height, size), s, t);
        WithKeyIsFilter(pool, TopLeft, key);
        FilterKeepsFirstOrder(pool, HasKey(TopLeft, key), s, t);
        assert false;
      }
    }
  }

  /** A tier without a title-shaped span holds no title candidate. */
  lemma NoneInTier(spans: seq<Span>, height: real, size: real)
    requires FirstTitleShaped(Tier(spans, height, size), 0).None?
    ensures forall s :: s in spans && TitleCandidate(s, height) ==> s.size != size
  {
  }

  /** The span picked from the leading tier beats every candidate of the
      tiers, and among the candidates of its size at its (y0, x0) it comes
      first in feed order. */
  lemma WinnerOfTier(spans: seq<Span>, height: real, tiers: seq<real>, k: nat)
    requires |tiers| > 0 && FirstTitleShaped(Tier(spans, height, tiers[0]), 0) == Some(k)
    ensures var t := Tier(spans, height, tiers[0])[k];
      && t in spans && TitleCandidate(t, height) && t.size == tiers[0]
      && (forall j :: 0 <= j < IndexOf(spans, t) && TitleCandidate(spans[j], height) && spans[j].size == t.size ==>
            TopLeft(spans[j]) != TopLeft(t))
      && (StrictlyDescending(tiers) ==>
            forall s :: s in spans && TitleCandidate(s, height) && s.size in tiers ==>
              s.size < t.size || (s.size == t.size && PosLe(TopLeft(t), TopLeft(s))))
  {
    var tier := Tier(spans, height, tiers[0]);
    var t := tier[k];
    assert t in tier;
    FirstShapedIsTopLeft(tier, k);
    FirstShapedIsEarliest(spans, height, tiers[0], k);
    if StrictlyDescending(tiers) {
      forall s | s in spans && TitleCandidate(s, height) && s.size in tiers
        ensures s.size < t.size || (s.size == t.size && PosLe(TopLeft(t), TopLeft(s)))
      {
        var m :| 0 <= m < |tiers| && tiers[m] == s.size;
        if m > 0 {
          assert s.size < t.size;
        } else {
          assert s in tier;
        }
      }
    }
  }

  /** The tier loop: the first tier holding a title-shaped span decides. */
  function FindTitle(spans: seq<Span>, height: real, tiers: seq<real>): Option<Span> {
    if |tiers| == 0 then None
    else
      var tier := Tier(spans, height, tiers[0]);
      match FirstTitleShaped(tier, 0)
      case Some(k) => Some(tier[k])
      case None => FindTitle(spans, height, tiers[1..])
  }

  /** What the tier loop finds: a candidate from the first tier that holds
      one, top-left-most within that tier and earliest in feed order among
      candidates of its size at its (y0, x0); nothing only if no tier holds one. */
  lemma {:induction false} FindTitleSound(spans: seq<Span>, height: real, tiers: seq<real>)
    requires StrictlyDescending(tiers)
    ensures var r := FindTitle(spans, height, tiers);
      && (r.None? ==> forall s :: s in spans && TitleCandidate(s, height) ==> s.size !in tiers)
      && (r.Some? ==> r.value in spans && TitleCandidate(r.value, height) && r.value.size in tiers)
      && (r.Some? ==> forall j :: 0 <= j < IndexOf(spans, r.value) && TitleCandidate(spans[j], height) && spans[j].size == r.value.size ==>
            TopLeft(spans[j]) != TopLeft(r.value))
      && (r.Some? ==> forall s :: s in spans && TitleCandidate(s, height) && s.size in tiers ==>
            s.size < r.value.size || (s.size == r.value.size && PosLe(TopLeft(r.value), TopLeft(s))))
    decreases |tiers|
  {
    if |tiers| > 0 {
      match FirstTitleShaped(Tier(spans, height, tiers[0]), 0)
      case Some(k) =>
        WinnerOfTier(spans, height, tiers, k);
      case None =>
        NoneInTier(spans, height, tiers[0]);
        assert forall x :: x in tiers ==> x == tiers[0] || x in tiers[1..];
        FindTitleSound(spans, height, tiers[1..]);
    }
  }

  /** The span that becomes the title: it is a title candidate, no candidate
      is larger, and no candidate of its size lies above it or, on the same
      line, to its left; a candidate of its size at the same (y0, x0) comes
      after it in feed order. There is none exactly when no span is a candidate. */
  function TitleSpan(spans: seq<Span>, height: real): (r: Option<Span>)
    ensures r.None? <==> forall s :: s in spans ==> !TitleCandidate(s, height)
    ensures r.Some? ==> r.value in spans && TitleCandidate(r.value, height)
    ensures r.Some? ==> forall s :: s in spans && TitleCandidate(s, height) ==>
      s.size < r.value.size || (s.size == r.value.size && PosLe(TopLeft(r.value), TopLeft(s)))
    ensures r.Some? ==> forall j :: 0 <= j < IndexOf(spans, r.value) && TitleCandidate(spans[j], height) && spans[j].size == r.value.size ==>
      TopLeft(spans[j]) != TopLeft(r.value)
  {
    var tiers := FirstPageSizes(spans);
    FindTitleSound(spans, height, tiers);
    FindTitle(spans, height, tiers)
  }

  predicate SameBox(a: Span, b: Span) {
    a.page == b.page && a.bbox == b.bbox
  }

  /** The condition a span meets to stay in the pool: it does not share the title's page and box. */
  function OffTitle(title: Span): Span -> bool {
    (s: Span) => !SameBox(s, title)
  }

  /** The span pool after the title is found: every span sharing the title's
      page and bounding box is gone, every other span stays, in feed order. */
  function RemoveTitle(spans: seq<Span>, title: Span): (rest: seq<Span>)
    ensures forall s :: s in rest <==> s in spans && !SameBox(s, title)
    ensures ListsValues(Kept(spans, OffTitle(title)), 0, rest, PresentFrom(Kept(spans, OffTitle(title)), 0))
  {
    FilterInOrder(spans, OffTitle(title));
    Filter(spans, OffTitle(title))
  }
}
