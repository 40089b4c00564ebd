# Research-Paper-Summariser in Dafny

A model of the two parts of the arXiv-to-Slack summariser that hold
statable logic. Each part comes with proofs about its behaviour.

- **The arXiv monitor** (`monitor.py`). `ResearchMonitor` keeps the set of
  paper ids it has reported and a JSON file of those ids.
  - `fetch_arxiv_papers` asks the arXiv API for the newest entries of a
    query and walks the feed in order.
  - It reports every entry whose id is neither in the set nor the id of
    an earlier entry of the same feed.
  - Each reported entry becomes a paper record with the line breaks of
    its title and abstract turned into spaces.
  - The reported ids are added to the set, and the set is written out
    when at least one paper was new.
  - A failed request (an exception, or a status other than 200) reports
    nothing and changes nothing.
- **The PDF handler** (`pdf_handler.py`).
  - `get_pdf_url` rewrites an abstract link into a PDF link.
  - `extract_text_from_pdf` joins the non-blank pages among the first
    `max_pages` with a blank line.
  - `clean_extracted_text` collapses newline and space runs, deletes null
    characters and strips the ends.
  - `get_paper_content` truncates the result to a character budget with
    a notice. When the link is missing or anything on the way raises, it
    falls back to the title and abstract.

Files:

- `text.dfy` (module `Text`): Python's `str.replace` (for a non-empty
  pattern, the only kind the source uses), `str.strip`, `str.isspace`,
  `str.endswith` and `str.join`, with their exact semantics.
  It also has the predicates used to state properties (occurrences, runs of
  one character).
- `pdf_handler.dfy` (module `PdfHandler`): `get_pdf_url`,
  `clean_extracted_text`, `extract_text_from_pdf` and `get_paper_content`.
  - `extract_text_from_pdf` is a method with the source's page loop. It is
    proved equal to the specification function `ExtractedText`.
  - The regular expressions `\n{3,}` → `\n\n` and ` {2,}` → ` ` share one
    definition, `CollapseRuns`. It turns each maximal run of n copies of a
    character into min(n, k) copies, which is what leftmost-greedy
    matching does.
- `monitor.dfy` (module `Monitor`):
  - the request URL;
  - the feed entries and paper records;
  - the specification `NewPapers` of one fetch, with its properties;
  - the class `ResearchMonitor`. Its fields are the seen set, the
    contents of the seen-papers file and a ghost count of saves. The loop
    of `fetch_arxiv_papers` is the method `CollectNewPapers`, which
    `FetchArxivPapers` calls. It is proved against `NewPapers`.
- `pipeline.dfy` (module `Pipeline`): the summariser hands each reported
  paper to `get_paper_content` as a dictionary, with the default budget.

The outside world is modelled by parameters:

- `ArxivApi` maps a request URL to a `FeedResponse`: `Raised`, or
  `Http(status, entries)`.
- `PdfSource` maps a PDF URL to the page texts, or to `None` when
  downloading or opening the PDF raises.
- `SeenFile` is the content of the JSON file: `Missing`, `Unreadable` or
  `Stored(ids)`.
- `WriteOutcome` says how writing the file goes: `Written`, `OpenFails`
  (the file stays as it was) or `WriteFails`. In the last case the open
  has already emptied the file, so it no longer parses and the next load
  finds no ids.

One point where the documentation and the code differ:

- The docstring of `get_paper_content` says it returns the abstract "if PDF
  extraction fails".
- In the code only an exception leads there. A PDF whose pages hold no
  visible text yields the empty string, and that empty string is returned.
- The model follows the code: see `PdfHandler.GetPaperContentBlankPdf`.

## Model

| member | source | states |
|---|---|---|
| Text.Replace | pdf_handler.py:19 | `str.replace` with a pattern and a replacement of equal length keeps the length of the text |
| Text.ReplaceCharAt | monitor.py:74-75 | replacing one character by another rewrites exactly the positions that held it and keeps every other character |
| Text.ReplaceCharRemoves | monitor.py:74-75 | after replacing a character by a different one, none of it is left |
| Text.ReplaceAbsent | pdf_handler.py:19 | replacing a pattern that does not occur returns the text unchanged |
| Text.Without | pdf_handler.py:93 | deleting null characters leaves none, never lengthens the text and adds no character |
| Text.WithoutKeeps | pdf_handler.py:93 | every character other than the deleted one survives |
| Text.Strip | pdf_handler.py:95 | `strip()` gives the empty text exactly when the text is all whitespace (Python's whitespace set), and otherwise neither starts nor ends with whitespace |
| Text.StripIsSlice | pdf_handler.py:95 | what `strip()` keeps is one contiguous slice of the text |
| Text.StripKeeps | pdf_handler.py:95 | `strip()` removes whitespace only: every other character stays |
| Text.StripStripped | pdf_handler.py:95 | text without whitespace at its ends is its own strip |
| Text.EndsWith | pdf_handler.py:20 | `s.endswith(p)` holds exactly when `s` is some text followed by `p` |
| Text.Join | pdf_handler.py:76 | `sep.join` of no parts is empty, of one part is that part, and of more parts is the join of all but the last, the separator, and the last part |
| Text.JoinContainsParts | pdf_handler.py:76 | every part of a `sep.join` occurs in the result |
| PdfHandler.GetPdfUrl | pdf_handler.py:11-22 | the PDF URL always ends with `.pdf`, and its length is the link's length or that plus 4 |
| PdfHandler.GetPdfUrlExample | pdf_handler.py:15-16 | `https://arxiv.org/abs/2312.12345` becomes `https://arxiv.org/pdf/2312.12345.pdf` |
| PdfHandler.GetPdfUrlUnchanged | pdf_handler.py:19-21 | a link with no `/abs/` that already ends in `.pdf` is returned unchanged |
| PdfHandler.ReplaceLeavesNoAbs | pdf_handler.py:19 | replacing `/abs/` by `/pdf/` leaves no `/abs/`, unless the text holds `/abs/abs/` |
| PdfHandler.GetPdfUrlNoAbs | pdf_handler.py:19-21 | the PDF URL holds no `/abs/` when the link holds no `/abs/abs/` |
| PdfHandler.GetPdfUrlOverlapKeepsAbs | pdf_handler.py:19 | with `/abs/abs/` the non-overlapping replacement leaves an `/abs/` in the URL |
| PdfHandler.CollapseRuns | pdf_handler.py:89-90 | collapsing runs never lengthens the text, adds no character and keeps the first character |
| PdfHandler.CollapseRunsOfRun | pdf_handler.py:89-90 | a run of n copies of c at the start of the text, not followed by another c, becomes exactly min(n, k) copies, and the rest of the text is collapsed on its own |
| PdfHandler.CollapseRunsConcat | pdf_handler.py:89-90 | collapsing works run by run: where two pieces of text do not split a run of c, the collapse of the whole is the collapse of each piece, one after the other |
| PdfHandler.CollapseRunsOfMidRun | pdf_handler.py:89-90 | a maximal run of n copies of c anywhere in the text becomes exactly min(n, k) copies, with the text before and after it collapsed on its own |
| PdfHandler.CollapseRunsMidExample | pdf_handler.py:89 | `x\n\n\n\ny` becomes `x\n\ny` |
| PdfHandler.CollapseRunsBound | pdf_handler.py:89-90 | after `re.sub(c{k+1,}, c*k)` no run of c is longer than k |
| PdfHandler.CollapseRunsNoop | pdf_handler.py:89-90 | a text without a run longer than k is left as it is |
| PdfHandler.CollapseRunsIdempotent | pdf_handler.py:89-90 | collapsing twice is collapsing once |
| PdfHandler.CollapseRunsKeepsOthers | pdf_handler.py:89-90 | only copies of the collapsed character are removed; the others stay in order |
| PdfHandler.CollapseRunsKeepsOtherRunsShort | pdf_handler.py:89-90 | collapsing spaces never lengthens a run of newlines |
| PdfHandler.CleanExtractedText | pdf_handler.py:84-95 | the cleaned text has no null character, no whitespace at either end, and is never longer than its input |
| PdfHandler.CleanLimitsRuns | pdf_handler.py:89-95 | on text without null characters, the cleaned text has no run of three newlines and no run of two spaces |
| PdfHandler.CleanCollapsesNewlineRun | pdf_handler.py:89 | `a\n\n\n\nb` cleans to `a\n\nb` |
| PdfHandler.CleanNullJoinsRuns | pdf_handler.py:89-93 | nulls are deleted after collapsing, so `a\n\n\0\nb` cleans to a text with three newlines in a row |
| PdfHandler.CleanIdempotent | pdf_handler.py:84-95 | on text without null characters, cleaning twice is cleaning once |
| PdfHandler.CleanKeepsVisible | pdf_handler.py:84-95 | cleaning deletes only whitespace and null characters: every other character survives |
| PdfHandler.PagesToExtract | pdf_handler.py:67-68 | the number of pages read is the page count or the limit, whichever is smaller, and none for a negative limit |
| PdfHandler.IsKeptIffStripped | pdf_handler.py:71 | a page is kept exactly when `text.strip()` is non-empty |
| PdfHandler.KeptPages | pdf_handler.py:68-72 | the kept pages are at most as many as the pages, and each of them is not blank |
| PdfHandler.KeptPagesMembers | pdf_handler.py:71-72 | a page text is kept exactly when it is one of the pages and not all whitespace |
| PdfHandler.KeptPagesConcat | pdf_handler.py:68-72 | keeping pages distributes over concatenation, so kept pages stay in page order |
| PdfHandler.ExtractedText | pdf_handler.py:49-81 | the extracted text has no null character and no whitespace at either end |
| PdfHandler.ExtractTwoPages | pdf_handler.py:76-79 | two pages that are single words come out as the first, a blank line `\n\n`, and the second |
| PdfHandler.ExtractTextFromPdf | pdf_handler.py:60-81 | the page loop, join and clean compute exactly `ExtractedText` |
| PdfHandler.ExtractKeepsVisible | pdf_handler.py:67-79 | every visible character of a page that is read reaches the extracted text |
| PdfHandler.ExtractIgnoresLaterPages | pdf_handler.py:67-68 | pages past the limit never influence the result |
| PdfHandler.ExtractSkipsBlankPage | pdf_handler.py:68-76 | a blank page adds no separator: removing it only shifts the page count |
| PdfHandler.ExtractBlankDocument | pdf_handler.py:67-81 | a document whose pages are all blank yields the empty text |
| PdfHandler.PyPrefix | pdf_handler.py:121 | `text[:n]` is a prefix of the text of length n when 0 <= n <= len(text), the whole text beyond, and len(text) + n (at least 0) for negative n |
| PdfHandler.Truncate | pdf_handler.py:119-122 | text within the budget is returned unchanged; longer text becomes a prefix of it followed by the notice, of length budget plus notice when the budget is not negative |
| PdfHandler.TruncateBound | pdf_handler.py:120-121 | with a non-negative budget the result is at most budget plus notice long |
| PdfHandler.TruncateNegative | pdf_handler.py:120-121 | a negative budget drops that many characters from the end and still appends the notice |
| PdfHandler.FallbackContent | pdf_handler.py:130 | the fallback is `Title: ` and the title (default `Unknown`), then the abstract label and the abstract (default `No abstract available`), with exactly that length |
| PdfHandler.FallbackDefaults | pdf_handler.py:130 | a paper with neither title nor abstract gives `Title: Unknown\n\nAbstract: No abstract available` |
| PdfHandler.GetPaperContent | pdf_handler.py:98-130 | a missing link or a failing download or parse gives the fallback; otherwise the content is the truncated extracted text of the PDF at `get_pdf_url(link)` |
| PdfHandler.GetPaperContentFallback | pdf_handler.py:126-130 | on the failure paths the content is never empty and starts with `Title: ` |
| PdfHandler.GetPaperContentBounded | pdf_handler.py:116-124 | content from the PDF is at most budget plus notice long |
| PdfHandler.GetPaperContentBlankPdf | pdf_handler.py:116-124 | a PDF with only blank pages gives the empty text, not the fallback |
| PdfHandler.GetPaperContentKeepsVisible | pdf_handler.py:113-124 | a visible character on one of the first 20 pages reaches the content when the text fits the budget |
| Monitor.NatToString | monitor.py:45 | `str(n)` of a natural number is a non-empty string of digits without a leading zero |
| Monitor.IntToString | monitor.py:45 | `str(n)` holds no space; it is the digits of n, with a leading `-` when n is negative |
| Monitor.NatToStringRoundTrip | monitor.py:45 | reading the digits back gives the number |
| Monitor.EncodeQuery | monitor.py:42 | the encoded query has the same length, no space, and differs only where the query had a space, which became `+` |
| Monitor.RequestParameters | monitor.py:42-45 | the parameters are exactly `search_query=`, the encoded query, `&start=0&max_results=`, the result count and `&sortBy=submittedDate&sortOrder=descending`, each at its position, with nothing else |
| Monitor.RequestUrl | monitor.py:36-45 | the request goes to `https://export.arxiv.org/api/query?`, followed by exactly the parameters |
| Monitor.RequestUrlHasNoSpace | monitor.py:36-45 | the request URL holds no space, whatever the query |
| Monitor.Record | monitor.py:72-78 | the record's id, link and publication date are copied; title and abstract have no line break, the same length, and the same characters except that line breaks became spaces |
| Monitor.IdsMembers | monitor.py:69 | an id belongs to the ids of a feed exactly when one entry has it |
| Monitor.NewPapers | monitor.py:64-80 | a fetch reports at most as many papers as the feed has entries |
| Monitor.NewPapersNext | monitor.py:69-80 | one more entry adds its record exactly when its id is neither seen nor the id of an earlier entry, and adds its id to the known ids |
| Monitor.NewPapersIds | monitor.py:69-80 | the ids reported are exactly the feed's ids that were not seen before |
| Monitor.NewPapersDistinct | monitor.py:71-80 | no id is reported twice in one fetch |
| Monitor.NewPapersSubsequence | monitor.py:65-79 | the reported papers are the records of entries at strictly increasing positions of the feed |
| Monitor.NewPapersFirstOccurrences | monitor.py:69-80 | each reported paper comes from the first entry with its id, and that id was not seen |
| Monitor.NewPapersConcat | monitor.py:64-80 | fetching a feed in two consecutive parts reports the same papers as fetching it at once |
| Monitor.NewPapersRepeat | monitor.py:71-83 | once the ids of a feed are remembered, the same feed reports nothing |
| Monitor.NewPapersSkipsSeen | monitor.py:71-80 | with paper A seen, the feed [A, B] reports only B |
| Monitor.LoadSeenPapers | monitor.py:13-21 | the stored ids, or no ids when the file is missing or unreadable |
| Monitor.ResearchMonitor.constructor | monitor.py:9-11 | a monitor starts from the ids in its file |
| Monitor.ResearchMonitor.SaveSeenPapers | monitor.py:23-29 | when written, the file holds each seen id once and loads back as the seen set; when the open fails, the file is unchanged; when the write fails after the open, the file no longer parses and loads as no ids; the seen set never changes |
| Monitor.ResearchMonitor.CollectNewPapers | monitor.py:64-80 | the loop returns `NewPapers` of the old seen set and the entries, the set gains every id of the entries, and the file and save count are unchanged |
| Monitor.ResearchMonitor.FetchArxivPapers | monitor.py:31-85 | a failed request returns no papers and changes nothing. Otherwise it returns `NewPapers` of the old set and the feed, and the set gains every id of the feed. It saves exactly when a paper is returned. After a successful save the file loads back as the new set; after a failed write it loads as no ids |
| Pipeline.SummarizerContent | summarizer.py:25 | the content the summarizer gets with the default budget of 50000 characters is the paper's title and abstract when its PDF cannot be fetched, and otherwise at most the budget plus the truncation notice |
| Pipeline.AsDict | summarizer.py:25 | the dictionary of a reported paper carries its link, and its fallback content shows the paper's own title and abstract, never the defaults |
| Pipeline.ReportedPaperFallback | pdf_handler.py:126-130 | when the PDF of a reported paper cannot be fetched, its title fills exactly the first line of the fallback content |

## Left out

- The HTTP request to the arXiv API and the `feedparser` call
  (monitor.py:47-59). They are network I/O; the response to the request
  URL is the parameter `api`.
- `download_pdf` (pdf_handler.py:25-46) and the PyMuPDF calls
  (pdf_handler.py:62-74). They are network I/O and a foreign library; the
  page texts, or a failure, are the parameter `source`.
- JSON encoding and decoding (monitor.py:13-29). The file is its decoded
  content. A file holding JSON other than a list of strings is not
  modelled: a number would raise an uncaught `TypeError`, and an object
  would give the set of its keys.
- The configuration read from the environment (`ARXIV_QUERY`,
  `MAX_PAPERS_PER_RUN`). Only the built-in defaults are modelled.
- The file name `DB_PATH`, a constant (config.py:23). The monitor's one
  file is its `seenFile` field.
- Monitor.LoadSeenPapers: does not model a file whose bytes do not decode
  as text in the locale encoding. In the source, `json.load` then raises
  `UnicodeDecodeError`, which neither caught exception class
  (monitor.py:19) covers, so creating the monitor fails. The model's files
  always decode, and an unparsable one loads as no ids.
- Feed entries that lack an attribute. In the source, reading `entry.id`
  or `entry.title` from such an entry raises out of the loop
  (monitor.py:65-80), after earlier ids were already added. The model's
  entries always have all five attributes.
- Dictionary values that are not strings, such as a `title` of `None`
  (formatted as `None` in the fallback). Every present value is a string.
- The order of ids in the saved JSON list. The model picks each next id
  arbitrarily, as iterating a Python set does.
- The `print` logging throughout; the summariser, Slack bot, scheduler
  and live-network checks (`summarizer.py`, `bot.py`, `main.py`,
  `verify.py`).
- PdfHandler.GetPdfUrlNoAbs: requires that the link holds no `/abs/abs/`.
  `str.replace` does not rewrite overlapping occurrences, so such a link
  keeps an `/abs/` (`PdfHandler.GetPdfUrlOverlapKeepsAbs`).
- PdfHandler.CleanLimitsRuns, PdfHandler.CleanIdempotent: require a text
  without null characters. Nulls are deleted after the runs are collapsed,
  so they can join two runs (`PdfHandler.CleanNullJoinsRuns`).
- PdfHandler.TruncateBound, PdfHandler.GetPaperContentBounded: require a
  non-negative budget. A negative one is covered by
  `PdfHandler.TruncateNegative`.
