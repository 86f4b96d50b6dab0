# Heading inference for PDF outlines, in Dafny

This project models the heading-inference engine of `extract_outline` in
`main.py`: what happens to a PDF's text spans once they have been
extracted. The spans (text, size, flags, font, color, page, line count of
their block, bounding box; the other extracted fields are never read) and the height of the first page are the input.
The output is a document title and an outline of H1/H2/H3 entries with
1-based pages. The engine works in five stages, each a module here:

- **Title** (`title.dfy`) searches the first page's sizes from the largest
  down. Within a size it takes the spans in the top third of the page in
  (y0, x0) order, and picks the first bold span of 3 to 15 words and at least
  12 points. Every span with the title's page and bounding box then leaves
  the pool.
- **BodyText** (`baseline.dfy`) computes the body baseline: the most common
  font and size among spans that are not bold, have more than five words and
  are smaller than the largest first-page size. With no such span it falls
  back to ("", 9.0).
- **Headings** (`headings.dfy`, on the loop skeleton in `scanning.dfy`) runs
  the heading loop. Each span is scored and accepted by "bold plus a numbered
  label, larger size or isolated block", or by a score of at least 3.5. The
  loop then screens out form boilerplate and merges the same-line spans that
  continue the heading. A merged text that is a bare number is dropped.
  Texts already used are remembered by their literal text and skipped.
- **Sorting** (`sorting.dfy`) provides the stable sort by (page, y0), and the
  largest-first list of distinct sizes.
- **Levels** (`levels.dfy`) gives the three largest candidate sizes H1, H2
  and H3, and every smaller size H2. **Outline** (`outline.dfy`) assembles
  the result.

Python's primitives are modelled over `string` in `text.dfy`:
- `split()` uses Python's whitespace set;
- `lower()` covers every character whose lower case is ASCII;
- `strip()`, `in`, `replace('.', '')` and `split(' ')[0]` are modelled as written;
- `isdigit()` uses Python's Unicode 15.0 digit set.

`Counter.most_common(1)` is in `collections.dfy`. Sizes, coordinates,
the page height and scores are exact `real`s.

Points about the code's behaviour that the model keeps:
- The numbered-label test reads the first SPACE-delimited field
  (`split(' ')[0]`), not the first whitespace-delimited token.
- The −3.0 lone-numeral penalty can never apply. It sits under the guard
  `len(text.split()) > 1` and itself needs `len(text.split()) == 1`, so
  `Headings.Score` keeps it in that dead position.
- The skip set holds texts, not spans. A span is skipped when any earlier
  heading used the same literal text, whether as its own text or as an
  absorbed one, and only then (`Headings.SeenExactly`).
- Only the winning title's page-and-box is removed from the pool. Other
  title-shaped spans stay and may become headings.
- The tier loop stops when the title differs from "Untitled Document". This
  is the same as "a title span was found", because a title span has at least
  three words and the placeholder has two (`Title.TitleNeverUntitled`).

## Model

| member | source | states |
|---|---|---|
| Outline.ExtractOutline | main.py:42-246 | An empty span list gives ("Untitled Document", []). With no title candidate the title is the placeholder. Otherwise it is the text of some first-page, top-third, title-shaped span. The outline has at most one entry per span, and pages never decrease along it. |
| Outline.Ceiling | main.py:83 | The body-size cap is present exactly when page 0 has a span. It is then the size of some first-page span and bounds every first-page size, so it is the largest of them. |
| Outline.EntriesOriginate | main.py:150-241 | Every outline entry comes from one span of the pool that remains after title removal. That span is in the document, does not share the title's page and box, passes the acceptance rule and is not boilerplate. Its merged text is not a bare number. The entry carries that merged text and that span's page plus one. |
| Outline.PagesFromOne | main.py:240 | When span pages are 0-based, every outline page is at least 1. |
| Outline.DocumentOrder | main.py:202 | The ordered candidates are a permutation of the scanned ones, sorted by (page, y0). Candidates with equal (page, y0) keep their scan order. |
| Outline.SortedPages | main.py:202 | Entries built from candidates in (page, y0) order have non-decreasing pages. |
| Outline.SortedLevels | main.py:205-235 | Sorting does not change the set of candidate sizes, so each sorted candidate's level is fixed by its size's rank among all candidate sizes. |
| Outline.EntryLevels | main.py:201-241 | Each outline entry's level is the level of the rank of its candidate's size among the distinct sizes of all candidates. |
| Outline.TitleBoxRemoved | main.py:69-72 | The heading scan sees exactly the document's spans that do not share the title span's page and bounding box, in feed order and one per position, or all spans when there is no title. |
| Outline.OrderedOriginate | main.py:193-202 | Each sorted candidate is the candidate of some accepted span of the pool. |
| Title.FirstPageSizes | main.py:47-50 | The tiers are strictly decreasing and are exactly the sizes of first-page spans. |
| Title.Tier | main.py:56-60 | A tier is sorted by (y0, x0) and holds exactly the first-page spans of its size in the top third of the page. Spans with the same (y0, x0) keep their feed order. |
| Title.TierPoolMembers | main.py:47-57 | Before the sort, a tier holds exactly the first-page spans of its size in the top third of the page. |
| Title.FirstShapedIsEarliest | main.py:60-68 | No title candidate of the tier's size at the same (y0, x0) comes before the tier's first title-shaped span in feed order. |
| Title.FirstTitleShaped | main.py:62-73 | None exactly when no span from the start index on is title-shaped. Otherwise it is the index of the first title-shaped span at or after the start index. |
| Title.FirstShapedIsTopLeft | main.py:60-68 | In a (y0, x0)-sorted tier, the first title-shaped span is top-left-most among the title-shaped ones. |
| Title.NoneInTier | main.py:54-67 | A tier that yields no title holds no title candidate. |
| Title.WinnerOfTier | main.py:53-75 | The span picked from a tier is a title candidate of that size. It beats every candidate of a smaller tier, and every candidate of its own size by (y0, x0). Among candidates of its size at its (y0, x0), it is the earliest in feed order. |
| Title.FindTitleSound | main.py:53-75 | The tier loop finds nothing only when no tier holds a candidate. What it finds is a candidate of the largest size holding one, top-left-most within that size, and earliest in feed order among candidates of that size at the same (y0, x0). |
| Title.TitleSpan | main.py:45-75 | There is no title exactly when no span is a title candidate. Otherwise the title span is a candidate, no candidate is larger, and no candidate of its size lies above it or, on the same line, to its left. No candidate of its size at the same (y0, x0) comes before it in feed order. |
| Title.TitleNeverUntitled | main.py:74 | No title-shaped span reads "Untitled Document". |
| Title.UntitledWords | main.py:46 | The placeholder title has two words. |
| Title.RemoveTitle | main.py:70-72 | The pool keeps exactly the spans that do not share the title's page and bounding box. Its m-th span is the span at the m-th such position of the input, so feed order and multiplicity are kept. |
| BodyText.BodyBaseline | main.py:79-87 | With no body span the baseline is ("", 9.0). Otherwise its font and size are what `most_common(1)` picks among the body spans. |
| BodyText.BaselineFromBody | main.py:79-87 | With body spans, the baseline size and font each belong to a body span, and no size or font occurs in more body spans. |
| Counting.MostCommon | main.py:86-87 | The result occurs in the list, no value occurs more often, and no value first seen before it has as many occurrences. |
| Counting.MostCommonUnique | main.py:86-87 | That characterisation admits one value only. |
| Seqs.IndexOf | main.py:86 | The position of the first occurrence. |
| Seqs.Filter | main.py:47 | A list comprehension with a condition keeps exactly the elements that satisfy it, with their multiplicities. |
| Seqs.FilterInOrder | main.py:47 | The comprehension's m-th element is the element at the m-th position that satisfies the condition: the order is the input's. |
| Seqs.FilterKeepsFirstOrder | main.py:56-57 | Two kept elements whose first occurrences come in one order in the input have their first occurrences in the same order in the result. |
| Sorting.SortBy | main.py:60 | The sort result is ordered by the key and is a permutation of its input. |
| Sorting.SortByStable | main.py:202 | Elements with equal keys keep their relative order. |
| Sorting.Insert | main.py:202 | Insertion adds exactly one copy of the element. |
| Sorting.DistinctDescending | main.py:50 | `sorted(set(xs), reverse=True)` is strictly decreasing and holds exactly the values of `xs`. |
| Sorting.RankIsIndex | main.py:208-216 | In a strictly decreasing list, a value's position equals the number of larger values in the list. |
| Headings.BoldAcceptance | main.py:101-154 | A bold span is accepted if and only if it has a numbered label, a larger size, an isolated block, a gap before it, or a short line in a font other than the body font. |
| Headings.NonBoldAcceptance | main.py:101-154 | An accepted non-bold span has a gap before it, a larger size or a numbered label. |
| Headings.KelvinUndertakingIsBoilerplate | main.py:159-160 | "UNDERTAKE TO" with a KELVIN SIGN for its K lower-cases to "undertake to" and is excluded. |
| Headings.LoneNumeralIsBare | main.py:189-191 | "3." alone is dropped as a bare number. |
| Headings.SuperscriptTwoIsBare | main.py:190 | A lone "²" is a bare number, since `isdigit` accepts it. |
| Headings.TwoWordExample | main.py:136 | "3. Scope" has two words. |
| Headings.NumberedLabelExample | main.py:136 | "3. Scope" is a numbered label. |
| Headings.FullWidthLabelExample | main.py:136 | "１. Name", with a full-width one, is a numbered label. |
| Headings.FullWidthTwoWords | main.py:136 | "１. Name" has two words. |
| Headings.RunFrom | main.py:170-187 | The absorbed spans are the longest run of consecutive following spans that sit on the origin's line and share its style. The run stops at the end of the list or at the first span that fails either test. |
| Headings.JoinedKeepsWords | main.py:183 | Appending absorbed texts never loses a word of the heading text. |
| Headings.AbsorbingHeadingNotBare | main.py:183-191 | When the origin and the first absorbed span each hold a word, the merged text has at least two words and is not dropped as a bare number. |
| Headings.SeenExactly | main.py:92-199 | A text is in the skip set when the loop reaches a span exactly when an earlier span, reached with its text unused, was accepted and not boilerplate, and either absorbed that text or yielded a heading with it as its own text. |
| Sorting.WithKeyIsFilter | main.py:60 | The elements with a given key, in input order, are the comprehension over "the key equals it". |
| Headings.EmittedIffOriginates | main.py:94-199 | A span yields a candidate exactly when its text is not yet used, it is accepted, not boilerplate, and its merged text is not a bare number. The candidate is then its merged text with the span's own size, page and top edge. |
| Headings.EmittedProvenance | main.py:156-199 | Whatever a span yields, it originates. |
| Headings.Scan | main.py:90-199 | At most one candidate per span. Each candidate is yielded by some span, every yielded candidate is present, and each one originates from an accepted span. |
| Headings.ScanInFeedOrder | main.py:94-199 | The candidates follow the yielding spans in feed order, one per yielding span, and every yielding span contributes. |
| Headings.RepeatedTextSkipped | main.py:97-99 | After a span yields a heading, no later span with the same literal text yields. |
| Headings.AbsorbedTextSkipped | main.py:184 | After an accepted, non-boilerplate span absorbs a text, no later span with that text yields, including the absorbed span itself. |
| Scanning.StepWith | main.py:97-199 | One loop step: the used-text set only grows, and only by the span's absorbed texts and own text. A skipped span changes nothing. Its own text becomes used only when it yields or is absorbed. A value is yielded exactly when the text is unused, the span is taken and its result is kept. A taken span's absorbed texts, and a yielding span's own text, become used. |
| Scanning.SeenAtExactly | main.py:92-199 | A text is used when the pass reaches a position exactly when an earlier position, reached with its own text unused and taken, absorbed it or yielded with it as its own text. |
| Scanning.ScanFrom | main.py:94-199 | The pass yields at most one value per position. |
| Scanning.ScanFromEmissions | main.py:94-199 | The pass yields exactly the values the positions emit. |
| Scanning.ScanFromInOrder | main.py:94-199 | The pass lists the yielded values in position order, one per yielding position. |
| Scanning.SeenGrows | main.py:92-199 | The used-text set never shrinks along the pass. |
| Scanning.KeyUsedOnce | main.py:98-99 | After a position yields, no later position with the same text yields. |
| Scanning.AbsorbedUsed | main.py:184 | After a taken position absorbs a text, no later position with that text yields. |
| Levels.RankedSizes | main.py:205-208 | The ranked sizes are strictly decreasing and are exactly the candidate sizes. |
| Levels.SizeLevelsByRank | main.py:210-220 | The size map holds exactly the three largest sizes, with H1, H2 and H3 by rank. The first-candidate fallback never changes it. |
| Levels.AssignLevels | main.py:222-241 | There is one entry per candidate, in order, with its text and its page plus one. |
| Levels.LevelsFollowRank | main.py:222-235 | Each level is H1, H2 or H3 for sizes of rank 0, 1 or 2 among the distinct candidate sizes, and H2 for smaller sizes. |
| Levels.DescendingUnique | main.py:208 | Two strictly decreasing lists with the same values are equal, so the ranking is unique. |
| Levels.FourSizeExample | main.py:205-235 | Candidate sizes 18, 14, 14, 11 get H1, H2, H2, H3. |
| Text.SplitTokens | main.py:112 | `split()` yields non-empty, whitespace-free words whose concatenation is the text's non-whitespace characters in order. |
| Text.SplitCountsWords | main.py:112 | `len(text.split())` equals an independent count of word starts. |
| Text.WordStartsAcrossSpace | main.py:183 | Two texts joined by one space hold the sum of their word counts. |
| Text.WordStartsOfWord | main.py:112 | A non-empty text without whitespace is one word. |
| Text.Lower | main.py:159-167 | Lower-casing keeps the length and leaves no ASCII capital. A character changes only when it is A-Z or the KELVIN SIGN, and then becomes an ASCII lower-case letter. A character ends up ASCII exactly when it was ASCII or the KELVIN SIGN. |
| Text.LowerIdempotent | main.py:159-167 | Lower-casing twice is lower-casing once. |
| Text.StripSpec | main.py:162-167 | `strip()` removes exactly the leading and trailing whitespace. |
| Text.ContainsSpec | main.py:159-161 | `sub in s` holds exactly when `sub` occurs in `s` at some index. |
| Text.RemoveCharSpec | main.py:136 | `replace('.', '')` removes every period and keeps every other character as often as before. |
| Text.RemoveCharConcat | main.py:136 | Removing a character from a concatenation removes it from each part, so the kept characters stay in their order. |
| Text.FirstFieldSpec | main.py:136 | `split(' ')[0]` is the longest SPACE-free prefix. |
| Text.TokenLength | main.py:112 | A word runs to the first whitespace character or the end. |

## Left out

- The PDF extraction (main.py:9-40) and `process_all_pdfs` (main.py:248 on)
  are I/O through PyMuPDF and the file system. The spans and the first
  page's height are parameters.
- The model does not require span texts to be stripped and non-empty, as
  extraction makes them (main.py:22-23). Every stated property holds for any
  text. `Headings.AbsorbingHeadingNotBare` asks for one word in the origin
  and in the first absorbed span, which extraction guarantees.
- Float rounding: sizes, coordinates, the page height and scores are exact
  rationals. The top-third test (main.py:57), the size factor (main.py:109),
  the gap test (main.py:119), the half-size line test (main.py:174) and the
  score sums (main.py:120-153) can round in IEEE doubles. A comparison at an
  exact boundary could come out differently there.
- The span size is taken as already rounded to one decimal (main.py:28).
- The fields `line_spans`, `line_idx`, `span_idx`, `block_idx` and
  `is_first_span_in_block` (main.py:34-39) are carried by the source but never read by the
  engine, so they are left out.
- `Text.Lower` maps only the characters whose Python lower case contains an
  ASCII letter. Those are A-Z, U+212A and U+0130. It keeps U+0130 (İ)
  instead of producing "i̇". Every phrase and label the boilerplate test
  compares against is ASCII, and none of them can match through that
  character. So `Headings.IsBoilerplate` gives the same answer as the source
  for every text.
- `Text.IsSpace` and `Text.IsDigit` follow Unicode 15.0, the version of
  Python 3.12. Other Python versions may accept a few more or fewer
  characters.
- The frequency part of the `ranked_sizes` key (main.py:208) never decides
  an order, because sizes are distinct counter keys. It is not modelled.
- `Spans.IsBold` tests the flag bit of value 2, as main.py:64, :81 and :104 do.
  PyMuPDF documents that bit as italic and the bit of value 16 as bold. The
  model keeps the code's test.
- Determinism across runs holds because every operation is a function. No
  lemma states it.
