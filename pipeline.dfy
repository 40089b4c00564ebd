/**
 * How the two halves meet: the summarizer hands each paper reported by the
 * monitor to the PDF handler as a dictionary.
 */
module Pipeline {
  import opened Text
  import Monitor
  import PdfHandler

  /**
   * The paper dictionary of a reported paper, as the PDF handler reads it:
   * the PDF comes from the paper's link, and the fallback shows the
   * paper's own title and abstract, never the defaults.
   */
  function AsDict(p: Monitor.PaperRecord): (d: PdfHandler.PaperDict)
    ensures d.link == Some(p.link)
    ensures PdfHandler.FallbackContent(d)
      == PdfHandler.TitleLabel + p.title + PdfHandler.AbstractLabel + p.abstractText
  {
    PdfHandler.PaperDict(Some(p.title), Some(p.abstractText), Some(p.link))
  }

  /**
   * `get_paper_content(paper)` as the summarizer calls it, with the default
   * budget: the title and abstract when the PDF cannot be fetched, and
   * otherwise text of at most the budget plus the truncation notice.
   */
  function SummarizerContent(p: Monitor.PaperRecord, source: PdfHandler.PdfSource): (content: string)
    ensures source(PdfHandler.GetPdfUrl(p.link)).None? ==>
      content == PdfHandler.TitleLabel + p.title + PdfHandler.AbstractLabel + p.abstractText
    ensures source(PdfHandler.GetPdfUrl(p.link)).Some? ==>
      |content| <= PdfHandler.MaxChars + |PdfHandler.TruncationNotice|
  {
    var content := PdfHandler.GetPaperContent(AsDict(p), source, PdfHandler.MaxChars);
    if source(PdfHandler.GetPdfUrl(p.link)).Some? then
      PdfHandler.GetPaperContentBounded(AsDict(p), source, PdfHandler.MaxChars);
      content
    else
      content
  }

  /**
   * When the PDF of a reported paper cannot be fetched, the content is its
   * title and abstract, and the title, whose line breaks the monitor
   * replaced, fills exactly the first line.
   */
  lemma ReportedPaperFallback(e: Monitor.Entry, source: PdfHandler.PdfSource, maxChars: int)
    requires source(PdfHandler.GetPdfUrl(e.link)).None?
    ensures var content := PdfHandler.GetPaperContent(AsDict(Monitor.Record(e)), source, maxChars);
      var head := |PdfHandler.TitleLabel| + |e.title|;
      head + 2 <= |content|
      && '\n' !in content[..head]
      && content[head] == '\n' && content[head + 1] == '\n'
  {
    var p := Monitor.Record(e);
    var content := PdfHandler.GetPaperContent(AsDict(p), source, maxChars);
    var head := |PdfHandler.TitleLabel| + |e.title|;
    assert content == PdfHandler.FallbackContent(AsDict(p));
    var tail := PdfHandler.AbstractLabel + p.abstractText;
    assert content[head..] == tail;
    assert tail[0] == '\n' && tail[1] == '\n';
    assert content[..head] == PdfHandler.TitleLabel + p.title by {
      assert content[..|PdfHandler.TitleLabel|] == PdfHandler.TitleLabel;
      assert content[|PdfHandler.TitleLabel|..head] == p.title;
    }
    assert '\n' !in PdfHandler.TitleLabel;
  }
}
