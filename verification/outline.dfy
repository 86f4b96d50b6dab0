/** The whole heading-inference pipeline over the extracted spans of one
    document: title detection, body baseline, heading scan, document-order
    sort and level assignment. */
module Outline {
  import opened Options
  import opened Seqs
  import opened Sorting
  import opened Spans
  import opened Title
  import opened BodyText
  import opened Headings
  import opened Levels

  /** The largest first-page size, the cap a body span must stay below;
      `None` stands for the infinite cap of a document whose first page has no span. */
  function Ceiling(spans: seq<Span>): (cap: Option<real>)
    ensures cap.Some? <==> exists s :: s in spans && s.page == 0
    ensures cap.Some? ==> forall s :: s in spans && s.page == 0 ==> s.size <= cap.value
    ensures cap.Some? ==> exists s :: s in spans && s.page == 0 && s.size == cap.value
  {
    var tiers := FirstPageSizes(spans);
    if |tiers| > 0 then
      assert tiers[0] in tiers;
      forall s | s in spans && s.page == 0 ensures s.size <= tiers[0] {
        assert s.size in tiers;
        var k :| 0 <= k < |tiers| && tiers[k] == s.size;
      }
      Some(tiers[0])
    else
      None
  }

  /** Candidates are put in document order: by page, then by top edge. */
  function DocOrder(c: Candidate): Pos {
    Pos(c.page as real, c.y0)
  }

  /** The intermediate results of one run of the pipeline. */
  datatype Stages = Stages(
    title: Option<Span>,
    rest: seq<Span>,
    base: Baseline,
    candidates: seq<Candidate>,
    ordered: seq<Candidate>)

  function RunStages(spans: seq<Span>, height: real): Stages {
    var title := TitleSpan(spans, height);
    var rest := if title.Some? then RemoveTitle(spans, title.value) else spans;
    var base := BodyBaseline(rest, Ceiling(spans));
    var candidates := Scan(rest, base);
    Stages(title, rest, base, candidates, SortBy(candidates, DocOrder))
  }

  /** `extract_outline` once the spans are extracted; `height` is the height
      of the first page. An empty document is untitled with an empty outline;
      otherwise the title is the text of the winning title span, or the
      untitled placeholder when no span qualifies, and the outline lists one
      entry per candidate heading, in page order. */
  function ExtractOutline(spans: seq<Span>, height: real): (doc: OutlineDocument)
    ensures |spans| == 0 ==> doc == OutlineDocument(Untitled, [])
    ensures (forall s :: s in spans ==> !TitleCandidate(s, height)) ==> doc.title == Untitled
    ensures (exists s :: s in spans && TitleCandidate(s, height)) ==>
      exists t :: t in spans && TitleCandidate(t, height) && doc.title == t.text
    ensures |doc.outline| <= |spans|
    ensures forall i, j :: 0 <= i < j < |doc.outline| ==> doc.outline[i].page <= doc.outline[j].page
  {
    if |spans| == 0 then OutlineDocument(Untitled, [])
    else
      var st := RunStages(spans, height);
      assert |st.ordered| == |multiset(st.candidates)| <= |st.rest| <= |spans|;
      SortedPages(st.ordered);
      OutlineDocument(if st.title.Some? then st.title.value.text else Untitled, AssignLevels(st.ordered))
  }

  /** Entries built from candidates in document order have non-decreasing pages. */
  lemma SortedPages(ordered: seq<Candidate>)
    requires SortedBy(ordered, DocOrder)
    ensures forall i, j :: 0 <= i < j < |ordered| ==> AssignLevels(ordered)[i].page <= AssignLevels(ordered)[j].page
  {
    forall i, j | 0 <= i < j < |ordered| ensures AssignLevels(ordered)[i].page <= AssignLevels(ordered)[j].page {
      assert PosLe(DocOrder(ordered[i]), DocOrder(ordered[j]));
    }
  }

  /** The outline is `AssignLevels` applied to the sorted candidates. */
  lemma OutlineOfStages(spans: seq<Span>, height: real)
    requires |spans| > 0
    ensures ExtractOutline(spans, height).outline == AssignLevels(RunStages(spans, height).ordered)
  {
  }

  /** Each sorted candidate is the candidate of an accepted span of the pool. */
  lemma OrderedOriginate(rest: seq<Span>, base: Baseline, k: nat)
    requires k < |SortBy(Scan(rest, base), DocOrder)|
    ensures exists j :: Originates(rest, base, j, SortBy(Scan(rest, base), DocOrder)[k])
  {
    var cands := Scan(rest, base);
    var ordered := SortBy(cands, DocOrder);
    assert ordered[k] in multiset(cands);
    assert ordered[k] in cands;
    var c := ordered[k];
    assert exists j :: Originates(rest, base, j, c);
  }

  /** `rest` is what title removal leaves of `spans`: the spans off the
      title's page and box, in feed order, one per position. */
  ghost predicate PoolAfterTitle(spans: seq<Span>, title: Option<Span>, rest: seq<Span>) {
    && (title.Some? ==> forall s :: s in rest <==> s in spans && !SameBox(s, title.value))
    && (title.Some? ==> var kept := Kept(spans, OffTitle(title.value)); ListsValues(kept, 0, rest, PresentFrom(kept, 0)))
    && (title.None? ==> rest == spans)
  }

  /** Entry `e`, the `k`-th of the outline, comes from one accepted span of
      the pool `st.rest`: a span of the document that does not share the
      title's page and box and is not boilerplate, whose candidate is the
      `k`-th ordered one, with that span's merged text and its page plus one. */
  ghost predicate EntryFromPool(spans: seq<Span>, st: Stages, e: Entry, k: nat) {
    && k < |st.ordered|
    && exists j :: && Originates(st.rest, st.base, j, st.ordered[k])
                   && st.rest[j] in spans
                   && (st.title.Some? ==> !SameBox(st.rest[j], st.title.value))
                   && !IsBoilerplate(st.rest[j].text)
                   && e.text == MergedText(st.rest, j)
                   && e.page == st.rest[j].page + 1
  }

  /** Every entry built from a pool comes from one accepted span of it. */
  lemma PoolEntryOriginates(spans: seq<Span>, st: Stages, outline: seq<Entry>, k: nat)
    requires PoolAfterTitle(spans, st.title, st.rest)
    requires st.ordered == SortBy(Scan(st.rest, st.base), DocOrder) && outline == AssignLevels(st.ordered)
    requires k < |outline|
    ensures EntryFromPool(spans, st, outline[k], k)
  {
    var rest, base, ordered := st.rest, st.base, st.ordered;
    assert outline[k].text == ordered[k].text && outline[k].page == ordered[k].page + 1;
    OrderedOriginate(rest, base, k);
    var j :| Originates(rest, base, j, ordered[k]);
    assert ordered[k] == OriginCandidate(rest, j);
    assert rest[j] in rest;
    assert outline[k].text == MergedText(rest, j) && outline[k].page == rest[j].page + 1;
  }

  /** Every outline entry comes from one accepted span of the pool left after
      title removal: that span is in the document, does not share the
      title's page and box, is not boilerplate, and the entry carries its
      merged text and its page plus one. */
  lemma EntriesOriginate(spans: seq<Span>, height: real, k: nat)
    requires |spans| > 0 && k < |ExtractOutline(spans, height).outline|
    ensures EntryFromPool(spans, RunStages(spans, height), ExtractOutline(spans, height).outline[k], k)
  {
    OutlineOfStages(spans, height);
    TitleBoxRemoved(spans, height);
    PoolEntryOriginates(spans, RunStages(spans, height), ExtractOutline(spans, height).outline, k);
  }

  /** With 0-based span pages, every outline page is at least 1. */
  lemma PagesFromOne(spans: seq<Span>, height: real)
    requires forall s :: s in spans ==> s.page >= 0
    ensures forall e :: e in ExtractOutline(spans, height).outline ==> e.page >= 1
  {
    if |spans| > 0 {
      forall e | e in ExtractOutline(spans, height).outline ensures e.page >= 1 {
        var k :| 0 <= k < |ExtractOutline(spans, height).outline| && ExtractOutline(spans, height).outline[k] == e;
        EntriesOriginate(spans, height, k);
      }
    }
  }

  /** The ordered candidates are exactly the scanned ones, sorted by page
      and top edge; candidates with equal page and top edge keep their scan
      order. */
  lemma DocumentOrder(spans: seq<Span>, height: real, key: Pos)
    ensures var st := RunStages(spans, height);
      && multiset(st.ordered) == multiset(st.candidates)
      && SortedBy(st.ordered, DocOrder)
      && WithKey(st.ordered, DocOrder, key) == WithKey(st.candidates, DocOrder, key)
  {
    var st := RunStages(spans, height);
    SortByStable(st.candidates, DocOrder, key);
  }

  /** Sorting does not change which sizes occur, so the levels of the sorted
      candidates follow each size's rank among all candidate sizes. */
  lemma SortedLevels(cands: seq<Candidate>, k: nat)
    requires k < |SortBy(cands, DocOrder)|
    ensures var ordered := SortBy(cands, DocOrder);
      AssignLevels(ordered)[k].level == RankLevel(Rank(ordered[k].size, SizeSet(cands)))
  {
    var ordered := SortBy(cands, DocOrder);
    LevelsFollowRank(ordered, k);
    forall x ensures x in SizeSet(ordered) <==> x in SizeSet(cands) {
      if x in SizeSet(ordered) {
        var c :| c in ordered && c.size == x;
        assert c in multiset(cands);
      }
      if x in SizeSet(cands) {
        var c :| c in cands && c.size == x;
        assert c in multiset(ordered);
      }
    }
    assert SizeSet(ordered) == SizeSet(cands);
  }

  /** Each entry's level is decided by the rank of its candidate's size among
      the distinct sizes of all candidates. */
  lemma EntryLevels(spans: seq<Span>, height: real, k: nat)
    requires |spans| > 0 && k < |ExtractOutline(spans, height).outline|
    ensures var st := RunStages(spans, height);
      ExtractOutline(spans, height).outline[k].level ==
        RankLevel(Rank(st.ordered[k].size, SizeSet(st.candidates)))
  {
    var st := RunStages(spans, height);
    OutlineOfStages(spans, height);
    SortedLevels(st.candidates, k);
  }

  /** No span sharing the title's page and box reaches the heading scan,
      and every other span reaches it in feed order. */
  lemma TitleBoxRemoved(spans: seq<Span>, height: real)
    ensures var st := RunStages(spans, height); PoolAfterTitle(spans, st.title, st.rest)
  {
  }
}
