# Travis County court-record PDF scraper: a verified model

The repository downloads PDF documents and a Markdown summary from Travis
County (Texas) court case pages. It has two Selenium scrapers and a Chrome
extension. Most of it drives a browser. Inside that plumbing are small
deterministic routines, and this project models and proves those in Dafny:

- **Download bookkeeping** (`travis_advanced_pdf_scraper.py`):
  - the filter that keeps PDF responses from the browser's performance log;
  - the click counting over 26 CSS selectors plus the in-page click script;
  - the polling loop that collects finished downloads and ignores
    `.crdownload` partials;
  - the rename loop that never overwrites a file (`doc.pdf`, `doc_1.pdf`,
    `doc_2.pdf`, …) and counts only successful moves;
  - the per-case `download_tracker` discipline of `scrape_case`.
- **Markdown report** (`travis_scraper_with_markdown.py`):
  - the in-page extraction rules: two-cell rows become case information,
    header-indexed events, non-empty parties, and de-duplicated text blocks;
  - the report the `markdown +=` sequence builds from that record;
  - the per-selector cap of `find_and_download_pdfs`.
- **Extension content script** (`travis_pdf_extension/content.js`):
  - the case-number scanner for `[CD]-\d+-[A-Z]{2}-\d{2}-\d{6}` and the
    `\d{5,6}` variant, with its fallback order;
  - the four candidate-discovery strategies and the order-preserving
    de-duplication of `findPDFElements`;
  - the counting loop and message stream of `downloadAllPDFs`.
- **Extension service worker** (`travis_pdf_extension/background.js`):
  - the `downloadTracker` and `caseData` updates;
  - the case-number choice and suggested path of `organizeDownload`.

The browser, the file system and the clock become inputs:
- element lists and "this click succeeded" answers are given as data;
- a directory is a set of names, and a directory listing is a sequence;
- the wall-clock timeout becomes a sequence of directory snapshots, one per
  poll;
- timestamps are passed in as strings.

Module layout:
- `Text`: string tests, JavaScript `trim`, ASCII lower-casing, decimal counters.
- `Seqs`: filters, duplicate-free sequences and `[...new Set(xs)]`.
- `JsObject`: an insertion-ordered string-keyed object or dict.
- `Options`: the `Option` type.
- `CasePattern`: the regular-expression scanner.
- `PdfScraper`: the Selenium scraper, with the `Scraper` class holding
  `download_tracker` and `network_logs`.
- `MarkdownReport`: extraction, rendering and the capped click loop.
- `ContentScript`: the extension's content script.
- `Background`: the service worker, with the `Worker` class holding its two
  maps.

Loops in the source are Dafny methods with loop invariants. Each method is
proved equal to a specification function, and the lemmas prove properties of
those functions.

## Model

| member | source | states |
|---|---|---|
| PdfScraper.Scraper.constructor | travis_advanced_pdf_scraper.py:57-59 | A new scraper starts with an empty download tracker and no network logs. |
| PdfScraper.Scraper.CaptureNetworkLogs | travis_advanced_pdf_scraper.py:98-119 | `network_logs` grows by exactly the PDF records of the log, in log order, and the tracker is untouched. |
| PdfScraper.LogRecordSpec | travis_advanced_pdf_scraper.py:104-117 | An entry yields a record iff its method contains "Network.responseReceived" and either the lower-cased mime type contains "pdf" or the URL ends with ".pdf"; the record carries that URL and mime type. |
| PdfScraper.PdfLogsAppend | travis_advanced_pdf_scraper.py:101-119 | Filtering two stretches of log one after the other appends their records in order. |
| PdfScraper.MalformedSkipped | travis_advanced_pdf_scraper.py:102-119 | An entry that fails to parse adds nothing and does not stop the entries after it. |
| PdfScraper.PdfLogsMembers | travis_advanced_pdf_scraper.py:101-117 | A record is captured iff some entry of the log yields it. |
| PdfScraper.TrialClicksBound | travis_advanced_pdf_scraper.py:214-242 | Each element adds at most one click, whichever of the three click methods works; all elements count iff every one was clicked. |
| PdfScraper.SelectorClicksBound | travis_advanced_pdf_scraper.py:208-254 | The selector loop clicks at most as many elements as the selectors found. |
| PdfScraper.ScriptClicksBound | travis_advanced_pdf_scraper.py:256-276 | The in-page click script clicks at most once per image, and never when no image's src mentions icon, pdf or document. |
| PdfScraper.RunClickScript | travis_advanced_pdf_scraper.py:256-276 | The script's counting loop returns the number of matching images whose click target did not throw. |
| PdfScraper.Scraper.ClickElements | travis_advanced_pdf_scraper.py:214-251 | The per-element loop returns the click count, and appends the network records read after each element that scrolled into view. |
| PdfScraper.Scraper.ClickAllSelectors | travis_advanced_pdf_scraper.py:208-254 | A selector whose lookup raises is skipped; the loop returns the summed click count and the logs captured along the way. |
| PdfScraper.Scraper.FindAndClickPdfIcons | travis_advanced_pdf_scraper.py:174-285 | The result is the selector clicks plus the script's clicks when the script runs; only `network_logs` changes. |
| PdfScraper.WaitForDownloads | travis_advanced_pdf_scraper.py:287-313 | The poll loop returns exactly the accumulation of the snapshots up to the first settled poll. |
| PdfScraper.PollFilesSpec | travis_advanced_pdf_scraper.py:294-298 | A poll's list holds exactly the listed names that end in ".pdf"; no partial download gets through. |
| PdfScraper.PdfNotPartial | travis_advanced_pdf_scraper.py:298 | A name ending in ".pdf" never ends in ".crdownload". |
| PdfScraper.AccumulateSpec | travis_advanced_pdf_scraper.py:300-303 | Accumulating keeps what was found as a prefix, adds no duplicate, and adds only names from the polls. |
| PdfScraper.WaitFromStops | travis_advanced_pdf_scraper.py:292-313 | The loop stops at the first poll with no partial file and at least one PDF found, and otherwise uses every poll. |
| PdfScraper.WaitFromSpec | travis_advanced_pdf_scraper.py:292-313 | The result has no duplicates, keeps first-seen order, and holds only names seen in some poll. |
| PdfScraper.WaitResultNames | travis_advanced_pdf_scraper.py:294-303 | Every returned name ends in ".pdf", is not a partial, and appeared in some poll. |
| PdfScraper.WaitEmptyIff | travis_advanced_pdf_scraper.py:292-313 | The result is empty iff no poll ever listed a PDF. |
| PdfScraper.LastDot | travis_advanced_pdf_scraper.py:330 | Locates the last '.' of a name, or reports that there is none. |
| PdfScraper.SuffixedInjective | travis_advanced_pdf_scraper.py:331 | Different counters give different `<stem>_<k>.pdf` names. |
| PdfScraper.AllTakenBound | travis_advanced_pdf_scraper.py:329-333 | A directory can hold all of `stem_1.pdf` … `stem_n.pdf` only if it has at least n names, so the rename loop ends. |
| PdfScraper.FreeIndex | travis_advanced_pdf_scraper.py:328-333 | The counter stops at the first free `<stem>_<k>.pdf` and every smaller one is taken. |
| PdfScraper.PickName | travis_advanced_pdf_scraper.py:324-333 | The chosen name is never already in the directory, and is the file's own name when that is free. |
| PdfScraper.PickNameSmallest | travis_advanced_pdf_scraper.py:324-333 | When the name is taken, the result is `<stem>_<k>.pdf` for the smallest free k ≥ 1. |
| PdfScraper.ThreeCopies | travis_advanced_pdf_scraper.py:324-333 | Three `doc.pdf` arriving one after another become `doc.pdf`, `doc_1.pdf` and `doc_2.pdf`. |
| PdfScraper.PickDestination | travis_advanced_pdf_scraper.py:324-333 | The `while dest_path.exists()` loop computes exactly `PickName`. |
| PdfScraper.OrganizePdfs | travis_advanced_pdf_scraper.py:315-342 | The loop's count and the new Downloads and case directories are those of the specification `OrganizeSpec`. |
| PdfScraper.OrganizeSpecProps | travis_advanced_pdf_scraper.py:321-342 | The count is at most the number of files; each counted move adds one name to the case directory and removes one from Downloads. |
| PdfScraper.SkippedFile | travis_advanced_pdf_scraper.py:322-340 | A missing source or a failed move changes nothing, and the files after it are still handled. |
| PdfScraper.Scraper.ScrapeCase | travis_advanced_pdf_scraper.py:383-443 | `download_tracker[case]` is always set: to the organised count, or to 0 on no clicks, no PDFs, or an exception before the clicks, from the case-directory `mkdir` of `organize_pdfs`, or from saving a non-empty network log. The directories change only when PDFs are organised. |
| MarkdownReport.ExtractCaseInfo | travis_scraper_with_markdown.py:87-100 | The row loop builds exactly `CaseInfoOf` of the rows. |
| MarkdownReport.RowEntrySpec | travis_scraper_with_markdown.py:91-97 | A row gives an entry iff it has at least two td cells whose trimmed texts are non-empty; the value is the trimmed second text, and the key is the trimmed label with its first ':' removed (the label itself when it has none). |
| MarkdownReport.CaseInfoKeys | travis_scraper_with_markdown.py:87-100 | The case information has no key twice, and holds a key iff some row yields it. |
| MarkdownReport.CaseInfoLastWins | travis_scraper_with_markdown.py:96 | A key's value comes from the last row that yields that key. |
| MarkdownReport.ReadHeaders | travis_scraper_with_markdown.py:105-111 | The headers are the trimmed texts of the header row's cells, in order. |
| MarkdownReport.ExtractEvent | travis_scraper_with_markdown.py:115-121 | The cell loop builds exactly `EventOf` of the headers and cells. |
| MarkdownReport.EventOfKeys | travis_scraper_with_markdown.py:117-121 | An event has a field for a key iff some cell has a non-empty header equal to that key. |
| MarkdownReport.EventKeptIff | travis_scraper_with_markdown.py:122-124 | A row's event is kept iff some cell has a non-empty header. |
| MarkdownReport.CollectEvents | travis_scraper_with_markdown.py:113-125 | The data-row loop keeps each non-empty event, in row order. |
| MarkdownReport.ExtractEvents | travis_scraper_with_markdown.py:103-126 | The events are those of the data rows under the headers, with no headers when there is no header row. |
| MarkdownReport.ExtractParties | travis_scraper_with_markdown.py:129-135 | The party loop builds exactly `PartiesOf`. |
| MarkdownReport.PartiesSpec | travis_scraper_with_markdown.py:129-135 | The parties are the trimmed party texts that are non-empty, in order. |
| MarkdownReport.LongTextsSpec | travis_scraper_with_markdown.py:138-144 | Before de-duplication, the text blocks are the trimmed texts longer than 5 UTF-16 code units (JavaScript's `length`), in order. |
| MarkdownReport.AstralBlockKept | travis_scraper_with_markdown.py:138-144 | A block of three emoji has JavaScript length 6 and is kept, though it has only three characters. |
| MarkdownReport.AllTextSpec | travis_scraper_with_markdown.py:138-147 | The text blocks have no duplicates, and hold exactly the trimmed texts longer than 5 UTF-16 code units. |
| MarkdownReport.ExtractAllText | travis_scraper_with_markdown.py:137-147 | The text loop and the `new Set` step build exactly `AllTextOf`. |
| MarkdownReport.ExtractPageContent | travis_scraper_with_markdown.py:75-150 | The in-page script returns exactly the record `ExtractContent` describes. |
| MarkdownReport.Fallback | travis_scraper_with_markdown.py:178-181 | A cell is the value of the first key in the fallback chain that the event has, or "" when it has none. |
| MarkdownReport.FallbackIsValue | travis_scraper_with_markdown.py:178-181 | A non-empty cell is always one of the event's values. |
| MarkdownReport.DateCell | travis_scraper_with_markdown.py:178 | The date cell is Date, else Filed Date, else Event Date, else empty. |
| MarkdownReport.WriteInfoLines | travis_scraper_with_markdown.py:167-168 | One `- **key:** value` line per entry, in the record's key order. |
| MarkdownReport.AppendInfo | travis_scraper_with_markdown.py:165-169 | Appends the case-information section: nothing when the record is empty. |
| MarkdownReport.WriteEventRows | travis_scraper_with_markdown.py:176-183 | One four-cell table row per event, in order. |
| MarkdownReport.AppendEvents | travis_scraper_with_markdown.py:172-184 | Appends the events table with its header and rule: nothing when there are no events. |
| MarkdownReport.WritePartyLines | travis_scraper_with_markdown.py:189-190 | One `- party` line per party, in order. |
| MarkdownReport.AppendParties | travis_scraper_with_markdown.py:187-191 | Appends the parties section: nothing when there are none. |
| MarkdownReport.WriteTextLines | travis_scraper_with_markdown.py:197-199 | Prints each block longer than 10 characters, followed by a blank line. |
| MarkdownReport.AppendText | travis_scraper_with_markdown.py:194-200 | Appends the fenced page-content section for the first 100 blocks: nothing when there are no blocks. |
| MarkdownReport.BuildMarkdown | travis_scraper_with_markdown.py:159-200 | The `markdown +=` sequence builds exactly the report `Render` describes. |
| MarkdownReport.ExtractPageContentToMarkdown | travis_scraper_with_markdown.py:155-223 | There is no report when the script raises or when creating the case directory or writing either file raises; otherwise the report is the rendering of the extracted record. |
| MarkdownReport.ReportOpening | travis_scraper_with_markdown.py:159-162 | Every report starts with `# Court Case: <case>`, then the URL line, the Extracted line and the `---` rule. |
| MarkdownReport.SectionsOnlyWhenPresent | travis_scraper_with_markdown.py:165-200 | Each section appears iff its part of the record is non-empty, and an empty record gives the opening alone. |
| MarkdownReport.InfoLinesCount | travis_scraper_with_markdown.py:167-168 | With single-line keys and values, there is exactly one line per case-information entry. |
| MarkdownReport.EventRowCount | travis_scraper_with_markdown.py:183 | With single-line values, each event row is exactly one line. |
| MarkdownReport.EventRowsCount | travis_scraper_with_markdown.py:176-183 | With single-line values, there is exactly one table row per event. |
| MarkdownReport.TextLinesSpec | travis_scraper_with_markdown.py:197-199 | The printed text equals selecting the blocks longer than 10 characters first, then printing each in order. |
| MarkdownReport.TextSectionSpec | travis_scraper_with_markdown.py:194-200 | Only the first 100 blocks are considered: blocks after the 100th never change the section. |
| MarkdownReport.CountTrue | travis_scraper_with_markdown.py:245-253 | The successful clicks among at most five elements number at most those elements. |
| MarkdownReport.DownloadClicksBound | travis_scraper_with_markdown.py:239-257 | Each selector contributes at most 5 clicks. |
| MarkdownReport.FindAndDownloadPdfs | travis_scraper_with_markdown.py:225-257 | The loop counts the successful clicks among the first five elements of each selector; over the 6 selectors that is at most 30. |
| CasePattern.MatchLengthSound | travis_pdf_extension/content.js:11-14 | A match the scanner reports really has the pattern's shape. |
| CasePattern.MatchLengthComplete | travis_pdf_extension/content.js:11-14 | Every match starting at a position is found there, and the reported one is the longest (greedy). |
| CasePattern.FindFrom | travis_pdf_extension/content.js:18 | The search finds a match start with no match start before it. |
| CasePattern.FirstMatchIsLeftmostLongest | travis_pdf_extension/content.js:18-20 | `matches[0]` is a window of the text that matches, no match starts further left, and none at that start is longer. |
| CasePattern.FirstMatchNone | travis_pdf_extension/content.js:18-19 | `match` returns null iff no window of the text matches the pattern. |
| CasePattern.SixDigitsWidens | travis_pdf_extension/content.js:11-14 | Whenever the 6-digit pattern matches, the 5-or-6-digit pattern matches too. |
| CasePattern.FallbackHasFiveDigits | travis_pdf_extension/content.js:11-21 | When only the second pattern matches, its match ends in exactly five digits. |
| ContentScript.SearchPatternsSpec | travis_pdf_extension/content.js:17-22 | The pattern loop returns the 6-digit match when there is one, else the 5-or-6-digit match, else nothing. |
| ContentScript.MatchIsNotUnknown | travis_pdf_extension/content.js:17-37 | A found case number can never be confused with 'UNKNOWN_CASE'. |
| ContentScript.GetCaseNumberSpec | travis_pdf_extension/content.js:9-38 | The result is 'UNKNOWN_CASE' iff neither the body nor the title-and-headings text has a match; otherwise it is the body's match, or else the header text's. |
| ContentScript.ImageEntriesSpec | travis_pdf_extension/content.js:44-73 | An image yields an entry iff it looks like an icon; the entry is its clickable ancestor when there is one, otherwise the image itself. |
| ContentScript.LinkEntriesSpec | travis_pdf_extension/content.js:74-91 | A link yields a `link` entry for itself iff its href, text or handler passes the PDF test; every entry comes from such a link. |
| ContentScript.HandlerEntriesSpec | travis_pdf_extension/content.js:93-104 | An `[onclick]` element yields an `onclick-handler` entry for itself iff its handler text mentions pdf, document or download; every entry comes from such an element. |
| ContentScript.AlreadyListed | travis_pdf_extension/content.js:115 | The `some` test is true iff the element is already a candidate. |
| ContentScript.ScanCell | travis_pdf_extension/content.js:109-128 | The cell loop builds exactly `CellStep`. |
| ContentScript.CellStepSpec | travis_pdf_extension/content.js:109-128 | A cell only appends entries, each a new element inside the cell whose text mentions document, pdf, file or view. |
| ContentScript.CellEntriesSpec | travis_pdf_extension/content.js:107-128 | Strategy 4 keeps earlier candidates and appends only elements not yet listed. |
| ContentScript.CollectCandidates | travis_pdf_extension/content.js:41-128 | The four strategies produce exactly `Collected` of the page. |
| ContentScript.Deduplicate | travis_pdf_extension/content.js:130-140 | The `seen`-set loop builds exactly `Unique`. |
| ContentScript.UniqueSpec | travis_pdf_extension/content.js:130-140 | The de-duplicated list has no element twice and covers every element any strategy produced. |
| ContentScript.UniqueKeepsFirst | travis_pdf_extension/content.js:130-140 | De-duplication keeps order and each element's first entry, type included. |
| ContentScript.FindPdfElements | travis_pdf_extension/content.js:41-141 | `findPDFElements` returns the de-duplicated candidates of the page. |
| ContentScript.DownloadAllPdfs | travis_pdf_extension/content.js:203-251 | `downloadCount` equals the number of candidates, whatever each click does; the messages sent are startDownload, one progress per element, then downloadComplete. |
| ContentScript.ProgressLeavesCaseData | travis_pdf_extension/background.js:113-117 | Progress messages never change the worker's case data. |
| ContentScript.ReportReachesWorker | travis_pdf_extension/background.js:100-124 | After one `downloadAllPDFs` run, the worker's entry for the case holds the element count, the arrival time of startDownload as the start time, that of downloadComplete as the end time, and the download count. |
| Background.Worker.constructor | travis_pdf_extension/background.js:8-9 | The worker starts with two empty maps. |
| Background.Worker.OnCreated | travis_pdf_extension/background.js:26-45 | The handler updates `downloadTracker` exactly as `TrackCreated` says, and leaves `caseData` alone. |
| Background.TrackCreatedSpec | travis_pdf_extension/background.js:30-40 | A non-PDF download leaves the tracker unchanged. A PDF appends exactly one record to the list under its timestamp, creating the list if absent, and no other key changes. |
| Background.PutTwice | travis_pdf_extension/background.js:32-35 | Creating the list and then pushing onto it is one assignment of the old list plus the record. |
| Background.Worker.OnMessage | travis_pdf_extension/background.js:97-144 | The handler updates `caseData` exactly as `AfterMessage` says, and leaves the tracker alone. |
| Background.AfterMessageSpec | travis_pdf_extension/background.js:100-141 | startDownload overwrites the case's entry; downloadComplete sets the end time and count only when the entry exists; other messages change nothing. |
| Background.Worker.OnChanged | travis_pdf_extension/background.js:48-65 | Only a download that turns 'complete' and has a '.pdf' filename is organised. |
| Background.OrganizeDownload | travis_pdf_extension/background.js:67-94 | The case is the filename's first 6-digit match, else the greatest caseData key, else 'UNKNOWN_CASE'; the path is the court_records folder path for that case. |
| Background.MaxKey | travis_pdf_extension/background.js:79 | `keys.sort().pop()` is a key that no other key sorts after. |
| Background.FileSafe | travis_pdf_extension/background.js:84 | Replacing every ':' and '.' with '-' keeps the length and every other character. |
| Background.SuggestedPathShape | travis_pdf_extension/background.js:84-85 | The path is `<root><case>/documents/<case>_<stamp>.pdf`, where the stamp has the timestamp's length and holds no ':' or '.'. |
| Background.LexLeTotal | travis_pdf_extension/background.js:79 | Any two keys are ordered by the sort. |
| Background.LexLeTransitive | travis_pdf_extension/background.js:79 | The sort order is transitive. |
| JsObject.PutSpec | travis_scraper_with_markdown.py:96 | `o[k] = v` keeps an object, maps k to v, adds k only if it was absent, and leaves every other pair in place. |
| JsObject.PutIsMapUpdate | travis_pdf_extension/background.js:102 | Viewed as a dictionary, `o[k] = v` is a map update. |
| JsObject.PutPut | travis_advanced_pdf_scraper.py:426-443 | A second assignment to the tracker's key replaces the first. |
| JsObject.PutKeepsOthers | travis_scraper_with_markdown.py:96 | Assigning one label leaves every other label's value alone. |
| Seqs.Distinct | travis_scraper_with_markdown.py:147 | `[...new Set(xs)]` has no duplicates and the same elements as xs. |
| Seqs.AddNewOrder | travis_scraper_with_markdown.py:147 | De-duplication keeps the order of first appearance. |
| Text.TrimSpec | travis_scraper_with_markdown.py:93-94 | `trim()` gives a window of the text with no JavaScript white space at either end. |
| Text.RemoveFirst | travis_scraper_with_markdown.py:96 | `replace(':', '')` removes exactly the first ':' (the one with no ':' before it), and nothing when there is none. |
| Text.JsLength | travis_scraper_with_markdown.py:141 | JavaScript's `length` counts UTF-16 code units: at least one and at most two per character, and exactly one per character iff the text has no character outside the Basic Multilingual Plane. |
| Text.ToLower | travis_advanced_pdf_scraper.py:111 | Lower-casing keeps the length and leaves no capital letter. |
| Text.NatToStringInjective | travis_advanced_pdf_scraper.py:331 | Distinct counters render as distinct decimal strings. |

## Left out

- Browser session and DOM plumbing are not modelled. This covers `setup_driver`, navigation, `WebDriverWait`, `execute_script`, scrolling, highlighting, `ActionChains`, and the extension's `clickElement` event dispatch. Element lists, attribute strings and "click succeeded" answers are inputs.
- File-system effects are not modelled: `glob`, `shutil.move`, `mkdir`, and the Markdown, JSON, screenshot and debug writes. A directory is a set of names.
- Sleeps, timeouts and `datetime.now()`/`toISOString()` are not modelled. Timestamps are parameters.
- JSON parsing of performance-log entries is not modelled. An entry is either already parsed or `Malformed`.
- `dump_page_info`, `extract_pdf_urls_from_page` and the `run()` summaries are not modelled: they are diagnostics.
- travis_district_court_scraper.py and travis_pdf_extension/popup.js are not part of this model.
- `chrome.storage` persistence, badge updates, `analyzePage`, the `pageAnalysis` store, the message listener of the content script, and `processAllCases` are not modelled: they are asynchronous platform calls.
- PdfScraper.WaitForDownloads: the 30-second timeout is a list of poll snapshots, one per second, so the poll budget is the length of that list.
- PdfScraper.PollFiles: glob results are in directory-listing order, and the case-number glob is matched case-sensitively.
- PdfScraper.OrganizePdfs: a move either fully succeeds or leaves both directories unchanged. Partial moves across file systems are not modelled.
- PdfScraper.Scraper.CaptureNetworkLogs: one clock reading serves a whole call, where the source reads the clock once per record.
- PdfScraper.Scraper.ScrapeCase: navigation, the table wait, the page dump and the PDF-URL file write are summarised by one flag, `pageLoads`. A failing case-directory `mkdir` in `organize_pdfs` is a second flag, `mkdirFails`, and the network-log file write a third, `logSaveFails`.
- `pathlib` path normalisation is not modelled. File names are plain strings, and `Path.stem` follows Python's rule that a leading or trailing dot starts no suffix.
- Text.ToLower handles ASCII letters only. Non-ASCII letters are not lower-cased as Python and JavaScript would, and every compared literal ("pdf", "document", …) is ASCII.
- JsObject: JavaScript orders integer-like keys before other keys. The model keeps plain insertion order, which Python dicts also use.
- Background.MaxKey compares by code point, where JavaScript's `sort()` compares UTF-16 code units. The two differ only for characters outside the Basic Multilingual Plane.
- MarkdownReport.ExtractContent: tables are given as rows of cells. Every `tr` of every table feeds the case information. The event table is given as an optional header row plus its data rows. In the real DOM, `tbody tr` can also select the header row. The `thead tr, tr:first-child` choice is an input.
- MarkdownReport.ExtractPageContentToMarkdown returns the report text rather than the file path. A failing `mkdir` or file write is one flag, `writeFails`; the Markdown file a failing JSON write leaves behind is not modelled. The `'N/A'` and `now()` defaults of `content.get` never apply, because the script always sets `url` and `timestamp`.
- ContentScript.DownloadAllPdfs: the delay between clicks and the asynchronous `sendMessage` are not modelled. Messages are delivered in the order they are sent.
