/** The records the heading engine consumes and produces. */
module Spans {
  import Text

  /** A span's bounding box in page coordinates; `y` grows down the page. */
  datatype BBox = BBox(x0: real, y0: real, x1: real, y1: real)

  /** One extracted text span. `size` is already rounded to one decimal by the
      extraction step, `page` is 0-based and `blockLines` is the number of lines
      of the layout block the span belongs to. */
  datatype Span = Span(
    text: string,
    size: real,
    flags: nat,
    font: string,
    color: int,
    page: int,
    blockLines: nat,
    bbox: BBox)

  /** A heading found by the scorer: the (possibly merged) text, with the size,
      page and top edge of the span it started from. */
  datatype Candidate = Candidate(text: string, size: real, page: int, y0: real)

  datatype Level = H1 | H2 | H3

  /** One outline line; `page` is 1-based. */
  datatype Entry = Entry(level: Level, text: string, page: int)

  datatype OutlineDocument = OutlineDocument(title: string, outline: seq<Entry>)

  const Untitled: string := "Untitled Document"

  /** The flag bit the source treats as bold: `flags & 2 != 0`. PyMuPDF
      documents bit value 2 as italic and 16 as bold; the model keeps the
      source's test. */
  predicate IsBold(s: Span) {
    (s.flags / 2) % 2 == 1
  }

  /** `len(text.split())`. */
  function WordCount(s: Span): nat {
    |Text.Split(s.text)|
  }

  function SpanSizes(spans: seq<Span>): seq<real> {
    seq(|spans|, k requires 0 <= k < |spans| => spans[k].size)
  }

  function SpanFonts(spans: seq<Span>): seq<string> {
    seq(|spans|, k requires 0 <= k < |spans| => spans[k].font)
  }
}
