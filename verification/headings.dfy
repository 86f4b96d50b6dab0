/** Heading detection: every span left after title detection is scored from
    typographic and geometric signals, accepted by the bold-plus-one-signal
    rule or a total score of at least 3.5, screened against form boilerplate,
    merged with the spans that continue it on the same line, and emitted as a
    candidate unless the merged text is a bare number. Texts already used by a
    heading are remembered, by their literal text, and skipped later. */
module Headings {
  import opened Options
  import opened Text
  import opened Spans
  import opened BodyText
  import opened Seqs
  import opened Scanning

  const GapWeight: real := 1.5
  const BoldWeight: real := 2.5
  const LargerWeight: real := 1.5
  const IsolatedWeight: real := 1.0
  const ShortLineWeight: real := 0.8
  const OtherFontWeight: real := 0.5
  const NumberedWeight: real := 2.0
  const LoneNumeralPenalty: real := 3.0
  const AcceptScore: real := 3.5

  const LargerFactor: real := 1.1
  const GapFactor: real := 1.5
  const MaxGap: real := 50.0
  const MaxShortWords: nat := 10

  const BoilerplatePhrases: seq<string> := ["declare that", "undertake to", "lump sum"]
  const FormLabels: set<string> := {"date", "rs.", "name", "s.no", "age", "relationship"}

  function Abs(x: real): real {
    if x < 0.0 then -x else x
  }

  predicate IsLargerThanBody(s: Span, base: Baseline) {
    s.size > base.size * LargerFactor
  }

  predicate IsIsolatedBlock(s: Span) {
    s.blockLines == 1
  }

  predicate IsShortLine(s: Span) {
    WordCount(s) <= MaxShortWords
  }

  predicate HasOtherFont(s: Span, base: Baseline) {
    s.font != base.font
  }

  /** A numbered form label such as "1. Name of the applicant": the first
      SPACE-delimited field is digits once its periods are removed, and the
      text has more than one word. */
  predicate IsNumberedLabel(text: string) {
    IsDigits(RemoveChar(FirstField(text), '.')) && |Split(text)| > 1
  }

  predicate EndsWithPeriod(text: string) {
    |text| > 0 && text[|text| - 1] == '.'
  }

  /** The span starts after a visible gap on its page: its top edge lies more
      than 1.5 sizes, and less than 50 units, below the bottom edge of the span
      fed just before it. */
  predicate FollowsGap(spans: seq<Span>, i: nat)
    requires i < |spans|
  {
    && i > 0
    && spans[i].page == spans[i - 1].page
    && var gap := spans[i].bbox.y0 - spans[i - 1].bbox.y1;
       gap > spans[i].size * GapFactor && gap < MaxGap
  }

  /** The additive heading score of `spans[i]`. The lone-numeral penalty sits,
      as in the scorer it models, under the numbered-label guard, which already
      demands more than one word, so it never applies. */
  function Score(spans: seq<Span>, i: nat, base: Baseline): real
    requires i < |spans|
  {
    var s := spans[i];
    (if FollowsGap(spans, i) then GapWeight else 0.0)
    + (if IsBold(s) then BoldWeight else 0.0)
    + (if IsLargerThanBody(s, base) then LargerWeight else 0.0)
    + (if IsIsolatedBlock(s) then IsolatedWeight else 0.0)
    + (if IsShortLine(s) then ShortLineWeight else 0.0)
    + (if HasOtherFont(s, base) then OtherFontWeight else 0.0)
    + (if IsNumberedLabel(s.text) then
         NumberedWeight - (if |Split(s.text)| == 1 && EndsWithPeriod(s.text) then LoneNumeralPenalty else 0.0)
       else 0.0)
  }

  /** The acceptance rule: bold together with a numbered label, a larger size
      or an isolated block; or a score of at least 3.5. */
  predicate IsHeading(spans: seq<Span>, i: nat, base: Baseline)
    requires i < |spans|
  {
    var s := spans[i];
    || (IsBold(s) && (IsNumberedLabel(s.text) || IsLargerThanBody(s, base) || IsIsolatedBlock(s)))
    || Score(spans, i, base) >= AcceptScore
  }

  /** For a bold span the rule reduces to: some strong signal, a gap before
      it, or a short line in a font other than the body font. */
  lemma BoldAcceptance(spans: seq<Span>, i: nat, base: Baseline)
    requires i < |spans| && IsBold(spans[i])
    ensures IsHeading(spans, i, base) <==>
      || IsNumberedLabel(spans[i].text)
      || IsLargerThanBody(spans[i], base)
      || IsIsolatedBlock(spans[i])
      || FollowsGap(spans, i)
      || (IsShortLine(spans[i]) && HasOtherFont(spans[i], base))
  {
  }

  /** A span that is not bold needs a gap, a larger size or a numbered label:
      isolation, shortness and a different font add up to only 2.3. */
  lemma NonBoldAcceptance(spans: seq<Span>, i: nat, base: Baseline)
    requires i < |spans| && !IsBold(spans[i])
    ensures IsHeading(spans, i, base) ==>
      FollowsGap(spans, i) || IsLargerThanBody(spans[i], base) || IsNumberedLabel(spans[i].text)
  {
  }

  /** Form boilerplate never becomes a heading: a declaration phrase anywhere
      in the lower-cased text, or a table/form label as the whole text. */
  predicate IsBoilerplate(text: string) {
    var low := Lower(text);
    || Contains(low, BoilerplatePhrases[0])
    || Contains(low, BoilerplatePhrases[1])
    || Contains(low, BoilerplatePhrases[2])
    || Strip(low) in FormLabels
  }

  /** An undertaking written in capitals, with the KELVIN SIGN for its K,
      is boilerplate. */
  lemma KelvinUndertakingIsBoilerplate()
    ensures IsBoilerplate("UNDERTA\U{212A}E TO")
  {
    var low := Lower("UNDERTA\U{212A}E TO");
    assert low == "undertake to";
    ContainsSpec(low, BoilerplatePhrases[1]);
    assert OccursAt(low, BoilerplatePhrases[1], 0);
  }

  /** A lone number such as "3.": one word that is digits once periods are
      removed and surrounding whitespace stripped. */
  predicate IsBareNumber(text: string) {
    IsDigits(Strip(RemoveChar(text, '.'))) && |Split(text)| == 1
  }

  /** A lone "3." is a bare number. */
  lemma LoneNumeralIsBare()
    ensures IsBareNumber("3.")
  {
    assert RemoveChar("3.", '.') == "3";
    assert Strip("3") == "3";
    assert TokenLength("3.") == 2 by {
      assert "3."[1..] == ".";
      assert TokenLength(".") == 1;
    }
    assert "3."[..2] == "3." && "3."[2..] == "";
    assert Split("3.") == ["3."];
  }

  /** A superscript two is a digit for `isdigit`, so "²" alone is a bare number. */
  lemma SuperscriptTwoIsBare()
    ensures IsBareNumber("\U{00B2}")
  {
    var s := "\U{00B2}";
    assert RemoveChar(s, '.') == s;
    assert Strip(s) == s;
    assert IsDigit(s[0]);
    assert TokenLength(s) == 1 by {
      assert s[1..] == "";
    }
    assert s[..1] == s && s[1..] == "";
    assert Split(s) == [s];
  }

  /** A numbered label may use full-width digits: "１. Name" is one. */
  lemma FullWidthLabelExample()
    ensures IsNumberedLabel("\U{FF11}. Name")
  {
    var s := "\U{FF11}. Name";
    assert FirstField(s) == "\U{FF11}." by {
      assert s[1..] == ". Name" && s[1..][1..] == " Name";
    }
    assert RemoveChar("\U{FF11}.", '.') == "\U{FF11}";
    FullWidthTwoWords();
  }

  /** The words of "１. Name" are "１." and "Name". */
  lemma FullWidthTwoWords()
    ensures |Split("\U{FF11}. Name")| == 2
  {
    var s := "\U{FF11}. Name";
    SplitCountsWords(s);
    NameTailWords();
    assert s[1..] == ". Name";
  }

  /** The words starting in ". Name": only "Name". */
  lemma NameTailWords()
    ensures WordStarts(". Name", false) == 1
  {
    assert WordStarts("e", false) == 0 by { assert "e"[1..] == ""; }
    assert WordStarts("me", false) == 0 by { assert "me"[1..] == "e"; }
    assert WordStarts("ame", false) == 0 by { assert "ame"[1..] == "me"; }
    assert WordStarts("Name", true) == 1 by { assert "Name"[1..] == "ame"; }
    assert WordStarts(" Name", false) == 1 by { assert " Name"[1..] == "Name"; }
    assert ". Name"[1..] == " Name";
  }

  /** The words of "3. Scope" are "3." and "Scope". */
  lemma TwoWordExample()
    ensures |Split("3. Scope")| == 2
  {
    var s := "3. Scope";
    SplitCountsWords(s);
    ScopeTailWords();
    assert s[1..] == ". Scope";
  }

  /** The words starting in ". Scope": only "Scope". */
  lemma ScopeTailWords()
    ensures WordStarts(". Scope", false) == 1
  {
    assert WordStarts("e", false) == 0 by { assert "e"[1..] == ""; }
    assert WordStarts("pe", false) == 0 by { assert "pe"[1..] == "e"; }
    assert WordStarts("ope", false) == 0 by { assert "ope"[1..] == "pe"; }
    assert WordStarts("cope", false) == 0 by { assert "cope"[1..] == "ope"; }
    assert WordStarts("Scope", true) == 1 by { assert "Scope"[1..] == "cope"; }
    assert WordStarts(" Scope", false) == 1 by { assert " Scope"[1..] == "Scope"; }
    assert ". Scope"[1..] == " Scope";
  }

  /** "3. Scope" is a numbered label: its first field is "3." and it has two words. */
  lemma NumberedLabelExample()
    ensures IsNumberedLabel("3. Scope")
  {
    var s := "3. Scope";
    TwoWordExample();
    assert FirstField(s) == "3." by {
      assert s[1..] == ". Scope" && s[1..][1..] == " Scope";
    }
    assert RemoveChar("3.", '.') == "3";
  }

  /** The merge loop's guard: same page, top edges less than half the
      origin's size apart, and strictly to the right of the origin. */
  predicate OnSameLine(origin: Span, next: Span) {
    && next.page == origin.page
    && Abs(next.bbox.y0 - origin.bbox.y0) < origin.size / 2.0
    && next.bbox.x0 > origin.bbox.x0
  }

  /** The merge loop's continuity test: same size, font and color, and at most ten words. */
  predicate SameStyle(origin: Span, next: Span) {
    && next.size == origin.size
    && next.font == origin.font
    && next.color == origin.color
    && WordCount(next) <= MaxShortWords
  }

  predicate Absorbs(origin: Span, next: Span) {
    OnSameLine(origin, next) && SameStyle(origin, next)
  }

  /** The spans absorbed into the heading that starts at `spans[i]`, scanning
      from index `j`: the longest run of consecutive spans the origin absorbs. */
  function RunFrom(spans: seq<Span>, i: nat, j: nat): (run: seq<Span>)
    requires i < |spans| && j <= |spans|
    ensures j + |run| <= |spans|
    ensures run == spans[j..j + |run|]
    ensures forall k :: 0 <= k < |run| ==> Absorbs(spans[i], run[k])
    ensures j + |run| == |spans| || !Absorbs(spans[i], spans[j + |run|])
    decreases |spans| - j
  {
    if j < |spans| && OnSameLine(spans[i], spans[j]) then
      if SameStyle(spans[i], spans[j]) then [spans[j]] + RunFrom(spans, i, j + 1) else []
    else []
  }

  function MergeRun(spans: seq<Span>, i: nat): seq<Span>
    requires i < |spans|
  {
    RunFrom(spans, i, i + 1)
  }

  /** The origin's text followed, for each absorbed span in order, by a
      space and that span's text. */
  function Joined(text: string, run: seq<Span>): string
    decreases |run|
  {
    if |run| == 0 then text else Joined(text + " " + run[0].text, run[1..])
  }

  function MergedText(spans: seq<Span>, i: nat): string
    requires i < |spans|
  {
    Joined(spans[i].text, MergeRun(spans, i))
  }

  /** Joining never loses a word of the text joined onto. */
  lemma {:induction false} JoinedKeepsWords(text: string, run: seq<Span>)
    ensures WordStarts(Joined(text, run), true) >= WordStarts(text, true)
    decreases |run|
  {
    if |run| > 0 {
      WordStartsAcrossSpace(text, run[0].text, true);
      JoinedKeepsWords(text + " " + run[0].text, run[1..]);
    }
  }

  /** A heading that absorbed a span is never dropped as a bare number when
      the origin and the first absorbed span each hold a word: the merged
      text then has at least two words. */
  lemma AbsorbingHeadingNotBare(spans: seq<Span>, i: nat)
    requires i < |spans| && |MergeRun(spans, i)| > 0
    requires WordCount(spans[i]) > 0 && WordCount(MergeRun(spans, i)[0]) > 0
    ensures |Split(MergedText(spans, i))| >= 2
    ensures !IsBareNumber(MergedText(spans, i))
  {
    var run := MergeRun(spans, i);
    var text := spans[i].text;
    assert MergedText(spans, i) == Joined(text + " " + run[0].text, run[1..]);
    JoinedKeepsWords(text + " " + run[0].text, run[1..]);
    WordStartsAcrossSpace(text, run[0].text, true);
    SplitCountsWords(text);
    SplitCountsWords(run[0].text);
    SplitCountsWords(MergedText(spans, i));
  }

  /** The candidate a heading starting at `spans[i]` produces: the merged
      text with the origin's own size, page and top edge. */
  function OriginCandidate(spans: seq<Span>, i: nat): Candidate
    requires i < |spans|
  {
    Candidate(MergedText(spans, i), spans[i].size, spans[i].page, spans[i].bbox.y0)
  }

  /** `c` is the candidate of an accepted, non-boilerplate span `spans[k]`
      whose merged text is not a bare number. */
  predicate Originates(spans: seq<Span>, base: Baseline, k: int, c: Candidate) {
    && 0 <= k < |spans|
    && IsHeading(spans, k, base)
    && !IsBoilerplate(spans[k].text)
    && !IsBareNumber(MergedText(spans, k))
    && c == OriginCandidate(spans, k)
  }

  function Texts(run: seq<Span>): set<string> {
    set s | s in run :: s.text
  }

  /** What the heading loop decides for `spans[i]` apart from the skip set:
      accepted and not boilerplate, the texts its merge absorbs, and its
      candidate unless the merged text is a bare number. */
  function Decide(spans: seq<Span>, base: Baseline, i: nat): Decision<Candidate>
    requires i < |spans|
  {
    Decision(
      spans[i].text,
      IsHeading(spans, i, base) && !IsBoilerplate(spans[i].text),
      Texts(MergeRun(spans, i)),
      if IsBareNumber(MergedText(spans, i)) then None else Some(OriginCandidate(spans, i)))
  }

  function Decisions(spans: seq<Span>, base: Baseline): (ds: seq<Decision<Candidate>>)
    ensures |ds| == |spans|
    ensures forall k :: 0 <= k < |spans| ==> ds[k] == Decide(spans, base, k)
  {
    seq(|spans|, k requires 0 <= k < |spans| => Decide(spans, base, k))
  }

  /** What `spans[k]` yields when the loop reaches it. */
  function Emitted(spans: seq<Span>, base: Baseline, k: nat): Option<Candidate>
    requires k < |spans|
  {
    EmittedAt(Decisions(spans, base), k)
  }

  /** The skip set `identified_heading_texts` when the loop reaches `spans[k]`. */
  function Seen(spans: seq<Span>, base: Baseline, k: nat): set<string>
    requires k <= |spans|
  {
    SeenAt(Decisions(spans, base), k)
  }

  /** A text is in the skip set when the loop reaches `spans[k]` exactly when
      an earlier span, reached with its own text unused, was accepted and not
      boilerplate, and either absorbed that text or yielded a heading with it
      as its own text. */
  lemma SeenExactly(spans: seq<Span>, base: Baseline, k: nat, x: string)
    requires k <= |spans|
    ensures x in Seen(spans, base, k) <==>
      exists j :: (0 <= j < k && spans[j].text !in Seen(spans, base, j)
                   && IsHeading(spans, j, base) && !IsBoilerplate(spans[j].text)
                   && (x in Texts(MergeRun(spans, j)) || (!IsBareNumber(MergedText(spans, j)) && x == spans[j].text)))
  {
    var ds := Decisions(spans, base);
    SeenAtExactly(ds, k, x);
    if x in Seen(spans, base, k) {
      var j :| 0 <= j < k && UsedBy(ds, j, x);
      assert ds[j] == Decide(spans, base, j);
    }
    if j :| (0 <= j < k && spans[j].text !in Seen(spans, base, j)
             && IsHeading(spans, j, base) && !IsBoilerplate(spans[j].text)
             && (x in Texts(MergeRun(spans, j)) || (!IsBareNumber(MergedText(spans, j)) && x == spans[j].text))) {
      assert ds[j] == Decide(spans, base, j);
      assert UsedBy(ds, j, x);
    }
  }

  /** A span yields a candidate exactly when its text has not been used yet
      and it originates that candidate. */
  lemma EmittedIffOriginates(spans: seq<Span>, base: Baseline, k: nat)
    requires k < |spans|
    ensures Emitted(spans, base, k).Some? <==>
      spans[k].text !in Seen(spans, base, k) && Originates(spans, base, k, OriginCandidate(spans, k))
    ensures Emitted(spans, base, k).Some? ==> Emitted(spans, base, k).value == OriginCandidate(spans, k)
  {
    var ds := Decisions(spans, base);
    assert ds[k] == Decide(spans, base, k);
  }

  /** Whatever a span emits, it originates. */
  lemma EmittedProvenance(spans: seq<Span>, base: Baseline, c: Candidate)
    requires exists k :: 0 <= k < |spans| && Emitted(spans, base, k) == Some(c)
    ensures exists k :: Originates(spans, base, k, c)
  {
    var k :| 0 <= k < |spans| && Emitted(spans, base, k) == Some(c);
    EmittedIffOriginates(spans, base, k);
  }

  /** The indices of the spans that emit a candidate, in feed order. */
  function EmittingSpans(spans: seq<Span>, base: Baseline): seq<nat> {
    PresentFrom(Emissions(Decisions(spans, base)), 0)
  }

  /** `candidate_headings`: what the individual spans emit, each the
      candidate of an accepted span, at most one per span. */
  function Scan(spans: seq<Span>, base: Baseline): (cands: seq<Candidate>)
    ensures |cands| <= |spans|
    ensures forall c :: c in cands <==> exists k :: 0 <= k < |spans| && Emitted(spans, base, k) == Some(c)
    ensures forall c :: c in cands ==> exists k :: Originates(spans, base, k, c)
  {
    var ds := Decisions(spans, base);
    var cands := ScanFrom(ds, 0, {});
    ScanEmissions(ds);
    assert forall k :: 0 <= k < |spans| ==> Emitted(spans, base, k) == EmittedAt(ds, k);
    forall c | c in cands ensures exists k :: Originates(spans, base, k, c) {
      EmittedProvenance(spans, base, c);
    }
    cands
  }

  /** `candidate_headings` lists the candidates of the emitting spans in
      feed order, one per emitting span, and no others. */
  lemma ScanInFeedOrder(spans: seq<Span>, base: Baseline)
    ensures var cands := Scan(spans, base); var idx := EmittingSpans(spans, base);
      && |idx| == |cands|
      && Ascending(idx)
      && (forall m :: 0 <= m < |idx| ==> idx[m] < |spans| && Emitted(spans, base, idx[m]) == Some(cands[m]))
      && (forall k :: 0 <= k < |spans| && Emitted(spans, base, k).Some? ==> k in idx)
  {
    var ds := Decisions(spans, base);
    ScanInOrder(ds);
    assert forall k :: 0 <= k < |spans| ==> Emitted(spans, base, k) == EmittedAt(ds, k);
  }

  /** Once a span has produced a heading, every later span with the same
      literal text is skipped. */
  lemma RepeatedTextSkipped(spans: seq<Span>, base: Baseline, j: nat, k: nat)
    requires j < k < |spans|
    requires Emitted(spans, base, j).Some? && spans[k].text == spans[j].text
    ensures Emitted(spans, base, k).None?
  {
    var ds := Decisions(spans, base);
    assert ds[k].key == ds[j].key;
    KeyUsedOnce(ds, j, k);
  }

  /** Once a span has been absorbed into an accepted heading, every later span
      with the same literal text is skipped, the absorbed span itself included. */
  lemma AbsorbedTextSkipped(spans: seq<Span>, base: Baseline, j: nat, k: nat)
    requires j < k < |spans|
    requires spans[j].text !in Seen(spans, base, j) && IsHeading(spans, j, base) && !IsBoilerplate(spans[j].text)
    requires spans[k].text in Texts(MergeRun(spans, j))
    ensures Emitted(spans, base, k).None?
  {
    var ds := Decisions(spans, base);
    assert ds[j] == Decide(spans, base, j) && ds[k].key == spans[k].text;
    AbsorbedUsed(ds, j, k);
  }
}
