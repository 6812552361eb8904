/** QuickApp's `display_pdf_preview` page rule (QuickApp.py:23-39): a
    document longer than `max_pages` is previewed through a copy of its
    first `max_pages` pages, with a caption saying so; a shorter one is
    previewed whole. The caller passes `max_pages=3` (QuickApp.py:208). Pages
    are opaque. */
module Preview {

  /** The pages shown and whether the truncation caption appears. */
  datatype Shown<P> = Shown(pages: seq<P>, truncated: bool)

  /** The `max_pages` QuickApp uses. */
  const DefaultMaxPages: nat := 3

  function PreviewPages<P>(doc: seq<P>, maxPages: nat): (s: Shown<P>)
    requires maxPages >= 1
    ensures s.truncated <==> |doc| > maxPages
    ensures |s.pages| == (if |doc| > maxPages then maxPages else |doc|)
    ensures s.pages <= doc
  {
    if |doc| > maxPages then Shown(doc[..maxPages], true) else Shown(doc, false)
  }

  /** Previewing a preview shows the same pages again and never truncates. */
  lemma PreviewIdempotent<P>(doc: seq<P>, maxPages: nat)
    requires maxPages >= 1
    ensures var first := PreviewPages(doc, maxPages).pages;
            PreviewPages(first, maxPages) == Shown(first, false)
  {
  }

  /** A larger page budget shows at least the same pages, in order. */
  lemma PreviewMonotone<P>(doc: seq<P>, m1: nat, m2: nat)
    requires 1 <= m1 <= m2
    ensures PreviewPages(doc, m1).pages <= PreviewPages(doc, m2).pages
    ensures PreviewPages(doc, m2).truncated ==> PreviewPages(doc, m1).truncated
  {
  }

  /** With QuickApp's budget: a document of at most three pages is shown
      whole, a longer one through its first three pages. */
  lemma DefaultPreview<P>(doc: seq<P>)
    ensures |doc| <= 3 ==> PreviewPages(doc, DefaultMaxPages) == Shown(doc, false)
    ensures |doc| > 3 ==> PreviewPages(doc, DefaultMaxPages) == Shown(doc[..3], true)
  {
  }
}
