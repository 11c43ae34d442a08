/**
 * The page join of `extract_pdf_text`: the text of every page, with a
 * page that yields no text read as the empty string, joined with single
 * newlines in page order. Decoding the PDF itself is not modelled: the
 * pages arrive as what the decoder returned for each of them.
 */
module Extraction {
  import opened Strings

  datatype Option<T> = None | Some(value: T)

  /** `page.extract_text() or ""`. */
  function PageText(page: Option<string>): string {
    match page
    case None => ""
    case Some(t) => t
  }

  /** The list `all_pages_text` once every page has been visited. */
  function PageTexts(pages: seq<Option<string>>): (r: seq<string>)
    ensures |r| == |pages|
    ensures forall i :: 0 <= i < |pages| ==> r[i] == PageText(pages[i])
  {
    seq(|pages|, i requires 0 <= i < |pages| => PageText(pages[i]))
  }

  /** The loop over the pages followed by `"\n".join(all_pages_text)`. */
  method ExtractPdfText(pages: seq<Option<string>>) returns (fullText: string)
    ensures fullText == Join(PageTexts(pages), "\n")
  {
    var allPagesText: seq<string> := [];
    var pageNumber := 0;
    while pageNumber < |pages|
      invariant 0 <= pageNumber <= |pages|
      invariant allPagesText == PageTexts(pages[..pageNumber])
    {
      var pageText := PageText(pages[pageNumber]);
      allPagesText := allPagesText + [pageText];
      pageNumber := pageNumber + 1;
    }
    assert pages[..|pages|] == pages;
    fullText := Join(allPagesText, "\n");
  }

  predicate NoNewline(t: string) {
    forall i :: 0 <= i < |t| ==> t[i] != '\n'
  }

  lemma NoNewlineSeparable(t: string)
    requires NoNewline(t)
    ensures Separable(t, "\n")
  {
    assert t + "\n"[..0] == t;
    forall i | 0 <= i <= |t| - 1 ensures !OccursAt(t, "\n", i) {
      assert t[i..i + 1][0] == t[i];
    }
    ContainsIffOccurs(t, "\n");
  }

  /** The length of the joined text: every page's text plus one newline
      between consecutive pages. */
  function TotalLength(texts: seq<string>): nat {
    if texts == [] then 0 else |texts[0]| + TotalLength(texts[1..])
  }

  lemma {:induction false} JoinLength(texts: seq<string>)
    requires texts != []
    ensures |Join(texts, "\n")| == TotalLength(texts) + |texts| - 1
  {
    if |texts| > 1 {
      JoinLength(texts[1..]);
    }
  }

  /** When no page's text holds a newline, the page texts are recovered
      by splitting the joined text at its newlines: the join loses
      nothing and keeps page order. */
  lemma PagesRecoverable(pages: seq<Option<string>>)
    requires pages != []
    requires forall i :: 0 <= i < |pages| ==> NoNewline(PageText(pages[i]))
    ensures Split(Join(PageTexts(pages), "\n"), "\n") == PageTexts(pages)
  {
    var texts := PageTexts(pages);
    forall i | 0 <= i < |texts| ensures Separable(texts[i], "\n") {
      NoNewlineSeparable(texts[i]);
    }
    SplitJoin(texts, "\n");
  }

  /** The joined text's length is the sum of the page lengths plus one
      per page boundary, so a page without text still adds its line
      break; no pages give the empty text. */
  lemma JoinedLength(pages: seq<Option<string>>)
    ensures pages == [] ==> Join(PageTexts(pages), "\n") == ""
    ensures pages != [] ==>
      |Join(PageTexts(pages), "\n")| == TotalLength(PageTexts(pages)) + |pages| - 1
  {
    if pages != [] {
      JoinLength(PageTexts(pages));
    }
  }
}
