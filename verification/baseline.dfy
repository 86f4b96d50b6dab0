/** The body-text baseline: the most common font and size among spans that
    look like running text (not bold, more than five words, smaller than the
    largest first-page size). */
module BodyText {
  import opened Options
  import opened Seqs
  import opened Counting
  import opened Spans

  const MinBodyWords: nat := 5
  const FallbackFont: string := ""
  const FallbackSize: real := 9.0

  datatype Baseline = Baseline(font: string, size: real)

  /** `ceiling` is the largest first-page size, `None` when the first page has
      no span (the source compares against infinity then). */
  predicate IsBodySpan(s: Span, ceiling: Option<real>) {
    !IsBold(s) && WordCount(s) > MinBodyWords && (ceiling.None? || s.size < ceiling.value)
  }

  function BodySpans(spans: seq<Span>, ceiling: Option<real>): seq<Span> {
    Filter(spans, (s: Span) => IsBodySpan(s, ceiling))
  }

  /** `common_font` and `common_size`: with no body span the fallback
      ("", 9.0); otherwise the font and the size `most_common` picks among
      the body spans. */
  function BodyBaseline(spans: seq<Span>, ceiling: Option<real>): (b: Baseline)
    ensures |BodySpans(spans, ceiling)| == 0 ==> b == Baseline(FallbackFont, FallbackSize)
    ensures |BodySpans(spans, ceiling)| > 0 ==>
      && IsMostCommon(SpanFonts(BodySpans(spans, ceiling)), b.font)
      && IsMostCommon(SpanSizes(BodySpans(spans, ceiling)), b.size)
  {
    var body := BodySpans(spans, ceiling);
    if |body| == 0 then Baseline(FallbackFont, FallbackSize)
    else Baseline(MostCommon(SpanFonts(body)), MostCommon(SpanSizes(body)))
  }

  /** When body spans exist, the baseline size is the size of one of them,
      no size is shared by more body spans, and the font likewise. */
  lemma BaselineFromBody(spans: seq<Span>, ceiling: Option<real>)
    requires |BodySpans(spans, ceiling)| > 0
    ensures var body := BodySpans(spans, ceiling); var b := BodyBaseline(spans, ceiling);
      && (exists s :: s in spans && IsBodySpan(s, ceiling) && s.size == b.size)
      && (exists s :: s in spans && IsBodySpan(s, ceiling) && s.font == b.font)
      && (forall s :: s in body ==> Count(SpanSizes(body), s.size) <= Count(SpanSizes(body), b.size))
      && (forall s :: s in body ==> Count(SpanFonts(body), s.font) <= Count(SpanFonts(body), b.font))
  {
    var body := BodySpans(spans, ceiling);
    var b := BodyBaseline(spans, ceiling);
    var ks :| 0 <= ks < |body| && SpanSizes(body)[ks] == b.size;
    assert body[ks] in spans && IsBodySpan(body[ks], ceiling);
    var kf :| 0 <= kf < |body| && SpanFonts(body)[kf] == b.font;
    assert body[kf] in spans && IsBodySpan(body[kf], ceiling);
    forall s | s in body
      ensures Count(SpanSizes(body), s.size) <= Count(SpanSizes(body), b.size)
      ensures Count(SpanFonts(body), s.font) <= Count(SpanFonts(body), b.font)
    {
      var k :| 0 <= k < |body| && body[k] == s;
      assert SpanSizes(body)[k] == s.size && SpanFonts(body)[k] == s.font;
    }
  }
}
