# Regulatory crawler core, modelled in Dafny

This project models the core of a regulatory-document crawler written in
Python. The crawler has three parts:

- **The generic crawler** (`crawler_scrapper.py`) fetches pages breadth-first
  from seed URLs. It classifies each response as HTML, PDF or failure,
  cleans the extracted text, and follows links within an allow-list of
  domains. Pages and explicitly listed PDFs go into a `documents` table,
  which is written with `INSERT OR REPLACE` on `(jurisdiction, url)`.
  EUR-Lex acts are flattened into one text and stored in the same table.
- **The simple scraper** (`scrapper.py`) writes into one `regulations` table
  per region. A row is inserted only when its `(title, source_url)` is new.
  Page titles and contents come from selector fallbacks and a bounded text
  concatenation. AIS India records come from the rows of one HTML table.
- **The keyword query** (`query_ev.py`) builds a case-insensitive
  `WHERE` clause over title, URL and (when present) content. It also derives
  a region name from a database file name.

Everything outside the program enters as values or function-typed
parameters: HTTP responses, HTML parsing, pdfminer, `urljoin`, `urlparse`,
the EUR-Lex parser, `json.dumps` and the UTC clock.

Files, one module each:

- `wrappers.dfy`: `Option` and `Outcome` values.
- `pystr.dfy`: the Python `str` behaviour the code relies on (`isspace`,
  `strip`, `rstrip`, `strip(chars)`, `lower`, `startswith`, `endswith`, `in`,
  `splitlines`, `join`).
- `document_store.dfy`: the `documents` table and `save_document`.
- `crawler_helpers.dfy`: `is_pdf_url`, `fetch_url`, `extract_html_text`,
  `extract_pdf_text`, `normalize_url`, `should_follow`.
- `eurlex.dfy`: `flatten_eurlex_data` and `ingest_eu_eurlex`.
- `crawler.dfy`: `crawl_generic`, with its explicit-PDF phase and its
  breadth-first loop. Termination is proved by a cost measure over the
  queue, so there is no fuel bound.
- `scraper.dfy`: `extract_text_from_elements`, `save_record`,
  `scrape_simple_pages` and `scrape_india`.
- `keyword_query.dfy`: `build_where_clause`, what the clause selects, the
  region name of `query_db` and its extract column.

Some behaviour of the code worth knowing, which the model keeps:

- `save_record` never updates an existing row. It does not backfill content.
- An unknown region raises Python's `KeyError` from `DB_PATHS[region]`. The
  error names the key but not the valid choices.
- Seed URLs and explicit PDF URLs are fetched without the domain filter.
  Only discovered links must pass `should_follow`.
- The explicit-PDF phase is not budget-checked. The number of saved
  documents is therefore bounded by `max(max_pages, PDFs saved in that
  phase)`, not by `max_pages` alone.

## Model

| member | source | states |
|---|---|---|
| DocumentStore.Upsert | crawler_scrapper.py:233-256 | after `INSERT OR REPLACE` the key holds exactly the new row, the key set grows by that key only, and every other row is unchanged |
| DocumentStore.UpsertRowCount | crawler_scrapper.py:210 | a save adds a row only when its `(jurisdiction, url)` was absent, otherwise the row count is unchanged |
| DocumentStore.UpsertTwice | crawler_scrapper.py:233-256 | saving the same key twice leaves one row holding the later values |
| DocumentStore.DocumentTable.constructor | crawler_scrapper.py:192-215 | a new table is empty and its AUTOINCREMENT counter starts at 1 |
| DocumentStore.DocumentTable.SaveDocument | crawler_scrapper.py:218-257 | the table becomes the upsert of the new row; the replaced row gets a fresh id, and ids stay distinct and below the counter |
| CrawlerHelpers.IsPdfUrlSpec | crawler_scrapper.py:264-265 | a URL is a PDF URL exactly when it ends in ".pdf" in any mix of letter cases |
| CrawlerHelpers.FetchUrl | crawler_scrapper.py:268-298 | no status exactly on a request exception; non-2xx gives neither HTML nor PDF; a 2xx response gives the PDF body exactly when the content type contains "application/pdf" or the URL is a PDF URL, and the text otherwise; never both |
| CrawlerHelpers.ExtractHtmlText | crawler_scrapper.py:301-329 | returns the title, the cleaned text and the links kept from the parsed page, the links by a loop over the hrefs |
| CrawlerHelpers.CleanTextLines | crawler_scrapper.py:317-321 | splitting the cleaned text again gives the non-blank input lines, stripped, in their original order; each is non-empty and stripped |
| CrawlerHelpers.KeptLinesAreClean | crawler_scrapper.py:319-320 | every kept line is non-empty, stripped and free of line boundaries |
| CrawlerHelpers.KeptLinesMembers | crawler_scrapper.py:319-320 | a string is a kept line exactly when it is non-empty and is the stripped form of some input line |
| CrawlerHelpers.FilterLinksMembers | crawler_scrapper.py:323-327 | a link is kept exactly when it is one of the hrefs, non-empty and not starting with "javascript:"; no more links than hrefs |
| CrawlerHelpers.ExtractPdfText | crawler_scrapper.py:332-346 | a non-empty PDF text requires pdfminer to have returned a non-empty text |
| PyStr.RStripClean | crawler_scrapper.py:342 | `rstrip` of a line without boundaries leaves no trailing whitespace |
| PyStr.JoinCleanLines | crawler_scrapper.py:343 | joining lines without boundaries or trailing whitespace by "\n" gives text whose only boundary is "\n" and whose lines do not end in whitespace |
| CrawlerHelpers.ExtractPdfTextClean | crawler_scrapper.py:332-346 | the PDF text has "\n" as its only line boundary and no line of it ends in whitespace |
| CrawlerHelpers.NormalizeUrl | crawler_scrapper.py:349-356 | no URL exactly when the href is blank or starts with "#" once stripped; otherwise the stripped href joined to the page URL |
| CrawlerHelpers.ShouldFollowSpec | crawler_scrapper.py:359-370 | a URL is followed exactly when it parses, its scheme starts with "http", and its lower-cased host ends with some lower-cased allowed domain |
| CrawlerHelpers.MatchesSomeDomainSpec | crawler_scrapper.py:367-370 | the early-return loop over the allowed domains is an "any" over them |
| CrawlerHelpers.SuffixMatchIgnoresLabelBoundary | crawler_scrapper.py:366-369 | the test is a plain suffix test: host "evilnhtsa.gov" is followed for domain "nhtsa.gov" |
| CrawlerHelpers.NonHttpNeverFollowed | crawler_scrapper.py:364-365 | a scheme not starting with "http" is never followed |
| CrawlerHelpers.LastSegment | crawler_scrapper.py:508 | `rsplit("/", 1)[-1]` is a suffix of the URL with no "/", preceded by "/" when shorter than the URL |
| PyStr.StripEmptyIffBlank | crawler_scrapper.py:350-352 | `strip()` gives "" exactly when the string is all whitespace |
| PyStr.StripByKeeps | crawler_scrapper.py:319 | a stripped string has no stripped character at either end and only characters of the original |
| PyStr.SplitLinesHaveNoBreaks | crawler_scrapper.py:319 | no line of `splitlines()` holds a line boundary |
| PyStr.SplitJoinedLines | crawler_scrapper.py:319-321 | joining non-empty lines without boundaries by "\n" and splitting again gives back the lines |
| PyStr.JoinEmptyIff | crawler_scrapper.py:430 | joining non-empty parts gives "" exactly when there are no parts |
| PyStr.Lower | query_ev.py:34 | lower-casing keeps the length and maps each character through the ASCII case folding |
| EurLex.FlattenEurlexData | crawler_scrapper.py:377-431 | returns the act's title (or "") and the non-blank parts joined by "\n": title, preamble, article blocks, final part, annex blocks |
| EurLex.AppendArticleParts | crawler_scrapper.py:395-406 | the article loop appends exactly the article blocks, in order |
| EurLex.ArticleLines | crawler_scrapper.py:396-404 | an article block holds the header and the text, each when non-empty |
| EurLex.AppendBlock | crawler_scrapper.py:405-406 | a non-empty block is appended as "\n\n" followed by its lines joined by "\n"; an empty block adds nothing |
| EurLex.AppendAnnexParts | crawler_scrapper.py:414-428 | the annex loop appends exactly the annex blocks, in order |
| EurLex.AnnexLines | crawler_scrapper.py:415-426 | an annex block holds the header, the text and the "TABLE:" part, each when non-empty |
| EurLex.AnnexHeaderStartsWithAnnex | crawler_scrapper.py:420 | `"ANNEX {id} - {title}".strip(" -")` always starts with "ANNEX" |
| EurLex.AnnexBlockPart | crawler_scrapper.py:419-428 | every annex yields exactly one non-blank part starting with "\n\nANNEX" |
| EurLex.AnnexPartsKept | crawler_scrapper.py:414-430 | the annexes contribute one kept part each, in order |
| EurLex.ArticleBlockPart | crawler_scrapper.py:399-406 | an article contributes a kept part exactly when its header is non-empty or its text is not blank |
| EurLex.ArticlePartsKept | crawler_scrapper.py:395-406 | the kept article parts number the kept articles |
| EurLex.NonBlankAppend | crawler_scrapper.py:430 | dropping blank parts distributes over concatenation |
| EurLex.FlatPartsCount | crawler_scrapper.py:383-430 | the flattened text has one part per present title, preamble, kept article, final part and annex |
| EurLex.LeadingPartsKept | crawler_scrapper.py:385-392 | the title is kept when not blank and the preamble when present |
| EurLex.FinalPartsKept | crawler_scrapper.py:409-411 | the final part is kept exactly when present |
| EurLex.FlatTextEmptyIff | crawler_scrapper.py:451-454 | the flattened text is empty, and the act skipped, exactly when it has no non-blank title, no preamble, no kept article, no final part and no annex |
| EurLex.CelexUrlInjective | crawler_scrapper.py:459 | distinct CELEX ids get distinct URLs, so they never replace each other's row |
| EurLex.IngestOne | crawler_scrapper.py:441-474 | an id is saved exactly when its lookup finds data with a non-empty flattened text; the saved row has the EURLEX columns; otherwise the table is unchanged |
| EurLex.IngestStep | crawler_scrapper.py:439-474 | one turn of the ingest loop keeps the record of saved ids, their rows and the untouched rows |
| EurLex.IngestibleIds | crawler_scrapper.py:442-475 | the ingestible ids of a list, in order: each is ingestible and in the list, and an id of the list is among them exactly when it is ingestible |
| EurLex.IngestEuEurlex | crawler_scrapper.py:434-475 | the saved ids are the ingestible ones in input order (`IngestibleIds`); each has its EU row; no row outside their URLs changed |
| Crawler.EnqueueLinks | crawler_scrapper.py:585-593 | the link loop appends exactly the discovered entries to the queue |
| Crawler.EnqueueStep | crawler_scrapper.py:586-593 | one link appends its entry when it normalises to a non-empty URL, passes the domain filter and is unvisited |
| Crawler.DiscoveredEntries | crawler_scrapper.py:585-593 | every discovered entry is one level below its page, is a non-empty URL, passes the domain filter, is unvisited and is the normalised form of one of the page's links; no more entries than links |
| Crawler.ExpansionWellQueued | crawler_scrapper.py:585-593 | expanding a well-queued page only queues well-queued entries: depth at most `max(max_depth, 0)` and domain-filtered |
| Crawler.QueueCostPopFront | crawler_scrapper.py:525 | taking the head off the queue removes exactly its cost |
| Crawler.DiscoveredCost | crawler_scrapper.py:585-593 | the entries a page appends cost at most its links' cost one level down |
| Crawler.ExpansionCost | crawler_scrapper.py:524-596 | what a visit appends costs less than the entry it dequeued, so the loop terminates |
| Crawler.ExpansionStep | crawler_scrapper.py:524-596 | a visit keeps every queued entry well queued and lowers the queue's cost |
| Crawler.SavedCount | crawler_scrapper.py:520 | the number of requests that yield a document is at most the number of requests, and 0 when none yields one |
| Crawler.RequestStep | crawler_scrapper.py:509-520 | one request for a new URL keeps the rows of earlier requests, adds its own row when it yields a document, counts it, and touches only its own key |
| Crawler.RecordedKept | crawler_scrapper.py:495-596 | rows of requests that a later phase does not request again survive that phase |
| Crawler.PdfPhaseRequest | crawler_scrapper.py:495-498 | requesting a new explicit PDF URL keeps the requests distinct, within the explicit list, and records it as requested |
| Crawler.PdfPhaseSkip | crawler_scrapper.py:496-497 | skipping an already requested explicit PDF URL keeps every URL so far requested |
| Crawler.SaveExplicitPdf | crawler_scrapper.py:500-520 | a document is saved exactly when the URL yields a non-empty PDF body with non-empty text; it is titled by the last URL segment and marked as PDF |
| Crawler.FetchExplicitPdfs | crawler_scrapper.py:495-521 | every explicit URL is requested, each exactly once; the count is the number of requests that yield a document; each such document is a row with its columns; only rows of requested URLs change |
| Crawler.PageRouting | crawler_scrapper.py:531-564 | a request exception or non-2xx status saves nothing and opens no link; the PDF route opens no link and saves only a PDF; a saved document always has text |
| Crawler.VisitPage | crawler_scrapper.py:530-596 | a document is saved exactly when the page has one, with its columns; the queue grows by the page's expansion |
| Crawler.RequestLogAdd | crawler_scrapper.py:525-528 | marking a dequeued unvisited URL visited extends a duplicate-free request log |
| Crawler.CrawledStep | crawler_scrapper.py:525-582 | visiting an unvisited well-queued entry extends the request log, counts its document if it yields one, records its row, and touches only its key |
| Crawler.SeedQueue | crawler_scrapper.py:487-490 | the initial queue holds every start URL at depth 0, in order |
| Crawler.DiscoveredComplete | crawler_scrapper.py:585-593 | every link that normalises to a non-empty, followed, unvisited URL has its entry among those the page appends |
| Crawler.LinksFollowedByVisit | crawler_scrapper.py:585-593 | after a page below the depth limit is visited, each of its links is dropped by the checks, already requested, or queued one level down |
| Crawler.LinksFollowedPop | crawler_scrapper.py:525-527 | taking the head off the queue keeps every page's links taken care of, once the head's URL is requested |
| Crawler.ProgressSkip | crawler_scrapper.py:525-527 | skipping a dequeued URL that was already requested keeps the loop's progress: queued entries are handled or pending, visits match the new requests, visited pages' links are taken care of |
| Crawler.ProgressVisit | crawler_scrapper.py:525-593 | fetching a dequeued new URL and appending its links keeps the loop's progress, with the entry added as the next visit |
| Crawler.FrontierVisit | crawler_scrapper.py:525-593 | after a visit, every page visited below the depth limit, the new one included, still has its links taken care of |
| Crawler.LoopReach | crawler_scrapper.py:524-596 | every visit is a well-queued entry; once the queue is empty, every initially queued URL is requested and every link of a page visited below the depth limit is requested or dropped by the checks |
| Crawler.SeedsRequested | crawler_scrapper.py:487-490 | when every initially queued URL is requested, so is every start URL |
| Crawler.ExpansionLinked | crawler_scrapper.py:585-593 | every entry a visit appends is linked from the visited page: one level down, below the depth limit, the normalised form of one of its links |
| Crawler.OriginsVisit | crawler_scrapper.py:525-593 | a visit keeps the origins of the loop: every queued entry is an initial entry or linked from a page visited so far, and every visit is an initial entry or linked from an earlier visit |
| Crawler.SeedDescent | crawler_scrapper.py:487-490 | with the start URLs as the initial queue, every visit is a start URL at depth 0 or linked from an earlier visit |
| Crawler.CrawlFromSeeds | crawler_scrapper.py:487-596 | the loop run from the start URLs at depth 0: every visit is a start URL at depth 0 or linked from an earlier visit; unless the budget is met, every start URL is requested and the links of pages visited below the depth limit are taken care of; the request log, counts and rows as for the loop |
| Crawler.CrawlBreadthFirst | crawler_scrapper.py:524-596 | no URL is fetched twice; every new request is a seed or passes the domain filter; the count grows by the number of new requests that yield a document, each a row with its columns; no save past the budget; each new request is a visit of a well-queued entry that is an initial entry or linked, one level down, from an earlier visit below the depth limit; unless the budget is met, every initially queued URL is requested and every link of a page visited below the depth limit is requested or dropped by the checks; only rows of requested URLs change |
| Crawler.CrawlGenericJoin | crawler_scrapper.py:495-596 | the rows of the explicit-PDF phase survive the breadth-first loop, and together the phases touch only rows of requested URLs |
| Crawler.CrawlGeneric | crawler_scrapper.py:482-598 | every explicit PDF URL is requested first, once; later requests are visits, all distinct, each a start URL at depth 0 or linked, one level down, from an earlier visit below `max_depth`; each phase's count is the number of its requests that yield a document, each such document is a row with its columns; unless the budget is met, every start URL is requested and every link of a page visited below `max_depth` is requested or dropped by the checks; at most `max(max_pages, PDFs saved first)` saved; only rows of requested URLs change |
| Scraper.ExtractTextFromElements | scrapper.py:103-121 | the loop returns the kept pieces joined by "\n\n", and "" for no elements |
| Scraper.ExtractStep | scrapper.py:109-120 | one element skips an empty text, cuts and stops on overflow, stops on an exact fill, and otherwise keeps its text |
| Scraper.KeptPiecesBound | scrapper.py:108-120 | the kept pieces never hold more than `max_chars` characters |
| Scraper.KeptPiecesShortMeansAll | scrapper.py:113-116 | when fewer than `max_chars` characters are kept nothing was cut: truncation fills the bound exactly |
| Scraper.KeptPiecesAllFit | scrapper.py:109-121 | when all non-empty texts fit they are all kept unchanged |
| Scraper.KeptPiecesArePrefix | scrapper.py:110-121 | the kept pieces are the non-empty texts in order, all unchanged except the last, which is a prefix of its text |
| Scraper.InsertIfAbsent | scrapper.py:58-85 | an existing `(title, source_url)` leaves the table unchanged; otherwise exactly one row with the given values is appended; the key is present afterwards |
| Scraper.InsertKeepsWellFormed | scrapper.py:58-85 | ids stay 1, 2, 3, ... and keys stay unique |
| Scraper.SaveAgainChangesNothing | scrapper.py:66-69 | saving a present key again, whatever its other values, changes nothing |
| Scraper.InsertAllAppends | scrapper.py:133-164 | a run of saves only appends, at most one row per record, and every record's key is present afterwards |
| Scraper.ChooseTitleFallback | scrapper.py:139-151 | a non-empty selector text wins; failing it, a non-empty `<title>` string, stripped; failing that, the first h1/h2's stripped text; else the URL; an empty title needs a blank `<title>` or heading or an empty URL |
| Scraper.PageRecordContent | scrapper.py:153-164 | an empty extracted content is stored as NULL, never as "" |
| Scraper.ScrapePage | scrapper.py:139-164 | a fetched page's record holds the chosen title, its URL, no PDF URL and its content |
| Scraper.RegulationDatabases.constructor | scrapper.py:31-48 | `init_db` on every region database of `DB_PATHS`: one empty table per region key |
| Scraper.RegulationDatabases.SaveRecord | scrapper.py:51-85 | an unknown region raises before any write; otherwise that region's table becomes the insert-if-absent of the record |
| Scraper.RegulationDatabases.ScrapeUrl | scrapper.py:134-164 | an unfetched page changes nothing; a fetched one saves its record, or raises for an unknown region |
| Scraper.SimplePagesStep | scrapper.py:133-164 | one page keeps the table equal to the saves of the fetched pages so far |
| Scraper.RegulationDatabases.ScrapeSimplePages | scrapper.py:124-164 | the region's table receives one save per fetched page, in order; an unknown region writes nothing and fails exactly when some page was fetched |
| Scraper.AisRow | scrapper.py:231-246 | the loop body builds the row's record |
| Scraper.AisRecordFields | scrapper.py:236-246 | the title is "{code} - {subject} (AIS India)", the source is the list page, and the content is the three labelled fields joined by "\n" |
| Scraper.RowRecordsShape | scrapper.py:228-247 | one record per row with at least three cells, each pointing at the list page with the AIS title and labelled content |
| Scraper.HeaderRowIgnored | scrapper.py:230 | the first row never yields a record, whatever it holds |
| Scraper.PdfUrlIffHref | scrapper.py:240-243 | a record gets a PDF URL exactly when its row's link has a non-empty `href` |
| Scraper.AisRowsStep | scrapper.py:230-247 | one row keeps the table equal to the saves of the wide rows so far |
| Scraper.RegulationDatabases.SaveAisRows | scrapper.py:228-247 | the India table receives the records of the wide rows, in order |
| Scraper.RegulationDatabases.ScrapeIndia | scrapper.py:211-247 | without a page or a table nothing is saved; otherwise the rows after the header are saved |
| KeywordQuery.TitleUrlConditions | query_ev.py:33-36 | two clauses per keyword, title then URL, in keyword order, over the lower-cased keyword |
| KeywordQuery.ContentConditions | query_ev.py:39-42 | one content clause per keyword, in keyword order |
| KeywordQuery.WhereConditions | query_ev.py:29-44 | 2·n clauses without a content column and 3·n with one: per keyword a title then a URL clause, then the content clauses in keyword order |
| KeywordQuery.BuildWhereClause | query_ev.py:29-44 | the two loops build exactly the rendered clauses, joined by " OR " |
| KeywordQuery.WhereSelectsIff | query_ev.py:29-44 | the clause selects a row exactly when some keyword occurs, ignoring case, in its title or URL, or in its content when the column exists |
| KeywordQuery.SelectedMentions | query_ev.py:33-42 | a selected row mentions the keyword of the clause that selected it |
| KeywordQuery.MentionsSelected | query_ev.py:33-42 | a row mentioning a keyword in a searched column is selected |
| KeywordQuery.LowerIdempotent | query_ev.py:34 | lower-casing twice is lower-casing once, and the result has no upper-case letter |
| KeywordQuery.KeywordCaseIgnored | query_ev.py:34 | keywords in any case build the same clauses |
| KeywordQuery.BatteryPackSelected | query_ev.py:8 | a title "Battery Pack Recall" is selected through "battery" |
| KeywordQuery.ContentIgnoredWithoutColumn | query_ev.py:39-42 | without a content column a keyword found only in the content does not select the row |
| KeywordQuery.NoKeywordMentioned | query_ev.py:8 | a value with no "e", "b" or "h" mentions none of the keywords |
| KeywordQuery.BaseStart | query_ev.py:48 | the base name starts after the last "/" |
| KeywordQuery.LastDot | query_ev.py:48 | the index found is that of the last "." |
| KeywordQuery.RegionNameOfDbFile | query_ev.py:48 | `<dir>/<region>.db` and `<region>.db` give `<region>` for a region name without "/" or "." |
| KeywordQuery.BaseNameAfterSlash | query_ev.py:48 | the base name of `<dir>/<name>` is `name` when it has no "/" |
| KeywordQuery.RootOfDbName | query_ev.py:48 | the extension ".db" is removed from `<region>.db` |
| KeywordQuery.RegionNameOfEuDb | query_ev.py:48 | "EU.db" gives "EU" |
| KeywordQuery.RegionNameOfIndiaPath | query_ev.py:48 | "/data/India.db" gives "India" |
| KeywordQuery.RegionNameOfHiddenDb | query_ev.py:48 | ".db" keeps its whole name, as `splitext` does for a hidden file |
| KeywordQuery.ExtractOf | query_ev.py:67-71 | an extract exists exactly with a content column and a non-NULL content; it is the content's first 400 characters, all of it when shorter, and exactly 400 otherwise |

## Left out

- HTTP transport (`requests.get`, headers, timeouts, encodings): a response is a value, or an exception outcome.
- BeautifulSoup, CSS selectors, pdfminer, `urljoin` and `urlparse` are foreign libraries. Their results are function parameters, or values such as a parsed page, the list of an element's `stripped_strings`, or the `<td>` cells and first `<a>` of a row.
- `get_data_by_celex_id` and `json.dumps` are function parameters. A missing key and a falsy value of the EUR-Lex data both read as "".
- `time.sleep`, `print` logging and `datetime.utcnow()` have no behavioural content. The clock is a parameter indexed by the number of saves or requests so far.
- SQLite plumbing (connections, schema creation, SQL execution, commits) is not modelled. A `documents` table is a map keyed on `(jurisdiction, url)`, and a `regulations` table is a sequence of rows. The `url` column is assumed non-NULL.
- `detect_has_content_column` is not modelled: whether the content column exists is a parameter of the query.
- `fetch_html` is not modelled: a page is a parameter, and None stands for any error.
- `query_db`'s SQL execution and its `textwrap.shorten` display are not modelled. What the `WHERE` clause selects is modelled as substring containment. This holds because the lower-cased keywords contain no `%` or `_` wildcards.
- `main`, `scrape_eu` and the other region drivers with fixed URL lists are not modelled. `Data_ingestion_and_sources/functions/utils.py`, `search_all.py`, `Data_ingestion_and_sources/functions/inspect_db.py` and the Streamlit app are not part of this model.
- PyStr.Lower: folds ASCII letters only, not the whole of Unicode.
- KeywordQuery.BaseName: follows POSIX paths only (separator "/").
- Scraper.ExtractTextFromElements: requires `max_chars >= 0`. A negative bound would follow Python's negative-slice rules, and the code only ever uses 4000.
- Scraper.InsertIfAbsent: gives a new row the row count plus one as its AUTOINCREMENT id. This is exact here because the model never deletes rows.
- Crawler.CrawlGeneric: does not state the queue order. Breadth-first order follows from the FIFO queue in `CrawlBreadthFirst`, but no lemma states it. The id and the timestamp of each saved row are not stated either; `save_document` gives them (`DocumentTable.SaveDocument`). Nor does the model prove that a page is fetched at its least link depth from a seed.
