/** `saveAsMarkdown`: the exported document and the export's checks. The
    page title, the tab's host name and the date are inputs. */
module Markdown {
  import opened Wrappers
  import opened Errors
  import Extraction
  import Slug

  // ------------------------------------------------------------------ document

  const Subtitle := "Summary or Persian Translation"
  const GeneratedOn := "Generated on: "
  const OriginalHeading := "## Original Text"
  const ResultHeading := "## Summary or Translation"

  /** The first line: the page title and its source. */
  function TitleLine(title: string, source: string): string {
    "# " + title + " - " + source
  }

  /** What separates the original text from the result. */
  const ResultSection := "\n\n" + ResultHeading + "\n\n"

  /** The subtitle line and the date line, each followed by a line break,
      and a blank line after them. */
  function SubtitleLines(date: string): string {
    Subtitle + "\n" + GeneratedOn + date + "\n\n"
  }

  /** The heading of the original text and the blank line after it. */
  const OriginalSection := OriginalHeading + "\n\n"

  /** The exported document: a title line, the subtitle, the date, then the
      original text and the result, each under its own heading. */
  function Document(title: string, source: string, date: string, text: string, result: string)
    : (doc: string)
    ensures var head, sub := TitleLine(title, source) + "\n\n", SubtitleLines(date);
      var start := |head| + |sub| + |OriginalSection|;
      && |doc| == start + |text| + |ResultSection| + |result|
      && head <= doc
      && doc[|head|..|head| + |sub|] == sub
      && doc[|head| + |sub|..start] == OriginalSection
      && doc[start..start + |text|] == text
      && doc[start + |text|..start + |text| + |ResultSection|] == ResultSection
      && doc[start + |text| + |ResultSection|..] == result
  {
    Layout(TitleLine(title, source) + "\n\n", SubtitleLines(date), OriginalSection,
           text, ResultSection, result)
  }

  /** `a + b + h + t + sec + r`, with the positions of its parts. */
  function Layout(a: string, b: string, h: string, t: string, sec: string, r: string)
    : (s: string)
    ensures var start := |a| + |b| + |h|;
      && |s| == start + |t| + |sec| + |r|
      && a <= s
      && s[|a|..|a| + |b|] == b
      && s[|a| + |b|..start] == h
      && s[start..start + |t|] == t
      && s[start + |t|..start + |t| + |sec|] == sec
      && s[start + |t| + |sec|..] == r
  {
    var front := a + b + h;
    var tail := t + sec + r;
    var s := front + tail;
    assert s[..|front|] == front;
    assert s[|front|..] == tail;
    s
  }

  /** The date, the original text and the result can be read back from a
      document: two documents for the same page and dates of the same
      length agree only when their date and texts agree. */
  lemma DocumentReadBack(title: string, source: string, d1: string, t1: string, r1: string,
                         d2: string, t2: string, r2: string)
    requires |d1| == |d2| && |t1| == |t2|
    requires Document(title, source, d1, t1, r1) == Document(title, source, d2, t2, r2)
    ensures d1 == d2 && t1 == t2 && r1 == r2
  {
    var head := TitleLine(title, source) + "\n\n";
    var doc := Document(title, source, d1, t1, r1);
    assert SubtitleLines(d1) == doc[|head|..|head| + |SubtitleLines(d1)|] == SubtitleLines(d2);
    SubtitleLinesDate(d1);
    SubtitleLinesDate(d2);
  }

  /** The date sits between the fixed start of the subtitle lines and the
      blank line that ends them. */
  lemma SubtitleLinesDate(date: string)
    ensures var lines := SubtitleLines(date);
      && |lines| == |Subtitle + "\n" + GeneratedOn| + |date| + 2
      && lines[|Subtitle + "\n" + GeneratedOn|..|lines| - 2] == date
  {
  }

  /** A document opens with its title line. */
  lemma DocumentOpens(title: string, source: string, date: string, text: string, result: string)
    ensures TitleLine(title, source) <= Document(title, source, date, text, result)
  {
    var doc := Document(title, source, date, text, result);
    var line := TitleLine(title, source);
    assert doc[..|line|] == (line + "\n\n")[..|line|] == line;
  }

  /** A document for the title "My Title!" from example.com opens with
      `# My Title! - example.com`, whatever its date and texts. */
  lemma DocumentExample(date: string, text: string, result: string)
    ensures "# My Title! - example.com" <= Document("My Title!", "example.com", date, text, result)
  {
    DocumentOpens("My Title!", "example.com", date, text, result);
    TitleLineExample();
  }

  lemma TitleLineExample()
    ensures TitleLine("My Title!", "example.com") == "# My Title! - example.com"
  {
    assert "# " + "My Title!" == "# My Title!";
    assert "# My Title!" + " - " == "# My Title! - ";
  }

  /** The download handed to the browser. */
  datatype Download = Download(filename: string, content: string, mimeType: string)

  /** `saveAsMarkdown`: refuse when there is no processed text, then
      extract the page text, then build the file. */
  function SaveAsMarkdown(title: string, resultText: string, page: Extraction.Page,
                          date: string, host: string): (r: Result<Download, Error>)
    ensures resultText == "" ==> r == Failure(NoProcessedText)
    ensures resultText != "" && Extraction.Extract(page).Failure? ==> r == Failure(NoSuitableContent)
    ensures r.Success? <==> resultText != "" && Extraction.Extract(page).Success?
    ensures r.Success? ==>
      && r.value.mimeType == "text/markdown"
      && r.value.filename == Slug.Filename(title, host, date)
      && r.value.content == Document(title, host, date, Extraction.Extract(page).value, resultText)
  {
    if resultText == "" then Failure(NoProcessedText)
    else
      var text :- Extraction.Extract(page);
      Success(Download(Slug.Filename(title, host, date), Document(title, host, date, text, resultText), "text/markdown"))
  }

  /** A page's content is looked at only once there is processed text: an
      empty result is refused first, even on a page with no usable content,
      and a non-empty one is then refused for the page. */
  lemma SaveAsMarkdownCheckOrder(title: string, resultText: string, blocks: seq<string>,
                                 date: string, host: string)
    requires forall b :: b in blocks ==> !Extraction.IsLongBlock(b)
    ensures var r := SaveAsMarkdown(title, resultText, Extraction.Page(None, None, blocks), date, host);
      r == Failure(if resultText == "" then NoProcessedText else NoSuitableContent)
  {
  }

  /** A page with an article exports the article's text as the original
      text, followed by the result at the end of the file. */
  lemma SaveAsMarkdownArticle(title: string, resultText: string, article: string,
                              main: Option<string>, blocks: seq<string>, date: string, host: string)
    requires resultText != ""
    ensures var r := SaveAsMarkdown(title, resultText, Extraction.Page(Some(article), main, blocks), date, host);
      && r.Success?
      && r.value.mimeType == "text/markdown"
      && r.value.content == Document(title, host, date, article, resultText)
    ensures var doc := Document(title, host, date, article, resultText);
      && |doc| >= |resultText| + |ResultSection| + |article|
      && doc[|doc| - |resultText|..] == resultText
      && doc[|doc| - |resultText| - |ResultSection| - |article|..|doc| - |resultText| - |ResultSection|] == article
  {
    DocumentEnds(title, host, date, article, resultText);
  }

  /** The last two parts of a document: the original text, then the
      result section. */
  lemma DocumentEnds(title: string, source: string, date: string, text: string, result: string)
    ensures var doc := Document(title, source, date, text, result);
      && |doc| >= |result| + |ResultSection| + |text|
      && doc[|doc| - |result|..] == result
      && doc[|doc| - |result| - |ResultSection| - |text|..|doc| - |result| - |ResultSection|] == text
  {
  }

  /** A successful export of "My Title!!" from Example.COM on 2024-01-01 is
      named `my-title--example.com-2024-01-01.md`. */
  lemma SaveAsMarkdownName(resultText: string, page: Extraction.Page)
    requires resultText != "" && Extraction.Extract(page).Success?
    ensures var r := SaveAsMarkdown("My Title!!", resultText, page, "2024-01-01", "Example.COM");
      r.Success? && r.value.filename == "my-title--example.com-2024-01-01.md"
  {
    Slug.FilenameExample();
  }
}
