/**
 * `crawl_generic` (crawler_scrapper.py): a bounded breadth-first crawl.
 * Explicit PDF URLs are fetched first; then a FIFO queue of
 * `(url, depth)` pairs seeded at depth 0 is worked off while it is not
 * empty and fewer than `max_pages` documents were saved. A URL is fetched
 * only once (the `visited` set is checked when an entry is dequeued), a
 * non-empty PDF or HTML text is saved through `save_document`, and the
 * links of an HTML page at depth `d < max_depth` that normalise, pass the
 * domain filter and are not yet visited go to the back of the queue at
 * depth `d + 1`.
 */
module Crawler {
  import opened Wrappers
  import opened PyStr
  import opened CrawlerHelpers
  import opened DocumentStore

  /** `CrawlerConfig` */
  datatype CrawlerConfig = CrawlerConfig(
    name: string,
    jurisdiction: string,
    source: string,
    startUrls: seq<string>,
    allowedDomains: seq<string>,
    maxDepth: int,
    maxPages: int,
    extraPdfUrls: seq<string>)

  /**
   * Everything outside the crawler: the HTTP response for each URL, the
   * HTML parser, pdfminer, `urljoin`, `urlparse`, and the UTC clock read
   * when the n-th request has been made.
   */
  datatype Web = Web(
    respond: string -> HttpOutcome,
    parseHtml: string -> HtmlPage,
    pdfMiner: Bytes -> Option<string>,
    urljoin: (string, string) -> string,
    urlparse: string -> Option<UrlParts>,
    clock: nat -> string)

  type Entry = (string, int)

  predicate Follows(web: Web, cfg: CrawlerConfig, url: string) {
    ShouldFollow(web.urlparse(url), cfg.allowedDomains)
  }

  predicate Distinct(s: seq<string>) {
    forall i, j :: 0 <= i < j < |s| ==> s[i] != s[j]
  }

  function Max(a: int, b: int): int {
    if a < b then b else a
  }

  /** The largest depth an entry can have: `max(max_depth, 0)`. */
  function DepthBound(cfg: CrawlerConfig): nat {
    if cfg.maxDepth > 0 then cfg.maxDepth else 0
  }

  /** A seed at depth 0, or a followable URL at a depth within the bound. */
  predicate WellQueued(web: Web, cfg: CrawlerConfig, e: Entry) {
    && 0 <= e.1 <= DepthBound(cfg)
    && (e.1 == 0 ==> e.0 in cfg.startUrls)
    && (e.1 > 0 ==> Follows(web, cfg, e.0))
  }

  // ---------------------------------------------------------------
  // link expansion (crawler_scrapper.py:585-593)
  // ---------------------------------------------------------------

  /** The entries the link loop appends, in link order. */
  function Discovered(web: Web, cfg: CrawlerConfig, visited: set<string>, pageUrl: string, depth: int, links: seq<string>)
    : seq<Entry>
  {
    if links == [] then []
    else
      Discovered(web, cfg, visited, pageUrl, depth, links[..|links| - 1])
        + LinkEntry(web, cfg, visited, pageUrl, depth, links[|links| - 1])
  }

  /** The entry one link adds: its normalised URL one level down, when it is non-empty, followable and unvisited. */
  function LinkEntry(web: Web, cfg: CrawlerConfig, visited: set<string>, pageUrl: string, depth: int, link: string)
    : seq<Entry>
  {
    match NormalizeUrl(pageUrl, link, web.urljoin)
    case None => []
    case Some(u) => if u != "" && Follows(web, cfg, u) && u !in visited then [(u, depth + 1)] else []
  }

  /** The link loop of `crawl_generic`, appending to the queue. */
  method EnqueueLinks(
    web: Web, cfg: CrawlerConfig, visited: set<string>, pageUrl: string, depth: int,
    links: seq<string>, queue: seq<Entry>)
    returns (q: seq<Entry>)
    ensures q == queue + Discovered(web, cfg, visited, pageUrl, depth, links)
  {
    q := queue;
    for i := 0 to |links|
      invariant q == queue + Discovered(web, cfg, visited, pageUrl, depth, links[..i])
    {
      ghost var before := q;
      var newUrl := NormalizeUrl(pageUrl, links[i], web.urljoin);
      if newUrl.Some? && newUrl.value != "" && ShouldFollow(web.urlparse(newUrl.value), cfg.allowedDomains) && newUrl.value !in visited {
        q := q + [(newUrl.value, depth + 1)];
      }
      EnqueueStep(web, cfg, visited, pageUrl, depth, links, i, queue, before, q);
    }
    assert links[..|links|] == links;
  }

  /** One turn of the link loop appends the entry of the next link, if it has one. */
  lemma EnqueueStep(
    web: Web, cfg: CrawlerConfig, visited: set<string>, pageUrl: string, depth: int,
    links: seq<string>, i: nat, queue: seq<Entry>, before: seq<Entry>, after: seq<Entry>)
    requires i < |links|
    requires before == queue + Discovered(web, cfg, visited, pageUrl, depth, links[..i])
    requires after == before + LinkEntry(web, cfg, visited, pageUrl, depth, links[i])
    ensures after == queue + Discovered(web, cfg, visited, pageUrl, depth, links[..i + 1])
  {
    assert links[..i + 1][..i] == links[..i];
    var d := Discovered(web, cfg, visited, pageUrl, depth, links[..i]);
    var l := LinkEntry(web, cfg, visited, pageUrl, depth, links[i]);
    assert queue + (d + l) == (queue + d) + l;
  }

  /**
   * Every discovered entry sits one level below its page, is a non-empty
   * URL that passes the domain filter, was not visited, and is the
   * normalised form of one of the page's links.
   */
  lemma {:induction false} DiscoveredEntries(
    web: Web, cfg: CrawlerConfig, visited: set<string>, pageUrl: string, depth: int, links: seq<string>)
    ensures forall k :: 0 <= k < |Discovered(web, cfg, visited, pageUrl, depth, links)| ==>
      var e := Discovered(web, cfg, visited, pageUrl, depth, links)[k];
      && e.1 == depth + 1
      && e.0 != ""
      && Follows(web, cfg, e.0)
      && e.0 !in visited
      && exists j :: 0 <= j < |links| && NormalizeUrl(pageUrl, links[j], web.urljoin) == Some(e.0)
    ensures |Discovered(web, cfg, visited, pageUrl, depth, links)| <= |links|
  {
    if links != [] {
      var init := links[..|links| - 1];
      DiscoveredEntries(web, cfg, visited, pageUrl, depth, init);
      var d := Discovered(web, cfg, visited, pageUrl, depth, links);
      forall k | 0 <= k < |d|
        ensures exists j :: 0 <= j < |links| && NormalizeUrl(pageUrl, links[j], web.urljoin) == Some(d[k].0)
      {
        if k < |Discovered(web, cfg, visited, pageUrl, depth, init)| {
          var j :| 0 <= j < |init| && NormalizeUrl(pageUrl, init[j], web.urljoin) == Some(d[k].0);
          assert links[j] == init[j];
        } else {
          assert NormalizeUrl(pageUrl, links[|links| - 1], web.urljoin) == Some(d[k].0);
        }
      }
    }
  }

  // ---------------------------------------------------------------
  // termination measure
  // ---------------------------------------------------------------

  /** How many more levels of links an entry at `depth` may still open. */
  function Rem(cfg: CrawlerConfig, depth: int): nat {
    if depth < cfg.maxDepth then cfg.maxDepth - depth else 0
  }

  /** The links the crawl would read from `url`: those of a non-empty 2xx HTML page, else none. */
  ghost function PageLinks(web: Web, url: string): seq<string> {
    var f := FetchUrl(url, web.respond(url));
    if f.html.Some? && f.html.value != "" then FilterLinks(web.parseHtml(f.html.value).hrefs) else []
  }

  /**
   * An upper bound on the number of dequeues that an entry for `url` with
   * `rem` levels left can cause: itself, plus its links' bounds one level
   * down.
   */
  ghost function Cost(web: Web, url: string, rem: nat): nat
    decreases rem, 0
  {
    1 + if rem == 0 then 0 else LinksCost(web, url, PageLinks(web, url), rem - 1)
  }

  ghost function LinksCost(web: Web, pageUrl: string, links: seq<string>, rem: nat): nat
    decreases rem, 2, |links|
  {
    if links == [] then 0
    else LinksCost(web, pageUrl, links[..|links| - 1], rem) + LinkCost(web, pageUrl, links[|links| - 1], rem)
  }

  /** The bound for one link: that of its normalised URL, or 0 when it does not normalise. */
  ghost function LinkCost(web: Web, pageUrl: string, link: string, rem: nat): nat
    decreases rem, 1
  {
    match NormalizeUrl(pageUrl, link, web.urljoin)
    case None => 0
    case Some(u) => Cost(web, u, rem)
  }

  /** The entry a link adds, if any, is costed as the link is. */
  lemma LinkEntryCost(web: Web, cfg: CrawlerConfig, visited: set<string>, pageUrl: string, depth: int, link: string)
    ensures var l := LinkEntry(web, cfg, visited, pageUrl, depth, link);
      l == [] || (l == [l[0]] && l[0].1 == depth + 1 && LinkCost(web, pageUrl, link, Rem(cfg, depth + 1)) == Cost(web, l[0].0, Rem(cfg, l[0].1)))
  {
  }

  ghost function QueueCost(web: Web, cfg: CrawlerConfig, q: seq<Entry>): nat {
    if q == [] then 0
    else QueueCost(web, cfg, q[..|q| - 1]) + Cost(web, q[|q| - 1].0, Rem(cfg, q[|q| - 1].1))
  }

  lemma {:induction false} QueueCostPopFront(web: Web, cfg: CrawlerConfig, q: seq<Entry>)
    requires q != []
    ensures QueueCost(web, cfg, q) == Cost(web, q[0].0, Rem(cfg, q[0].1)) + QueueCost(web, cfg, q[1..])
  {
    if |q| > 1 {
      var init, tail := q[..|q| - 1], q[1..];
      QueueCostPopFront(web, cfg, init);
      assert init[0] == q[0];
      assert tail[..|tail| - 1] == init[1..];
      assert tail[|tail| - 1] == q[|q| - 1];
    }
  }

  lemma QueueCostAppend(web: Web, cfg: CrawlerConfig, q: seq<Entry>, d: seq<Entry>, e: Entry)
    ensures QueueCost(web, cfg, q + (d + [e])) == QueueCost(web, cfg, q + d) + Cost(web, e.0, Rem(cfg, e.1))
  {
    assert q + (d + [e]) == (q + d) + [e];
    assert ((q + d) + [e])[..|q + d|] == q + d;
  }

  /** Appending the discovered entries adds at most the links' cost one level down. */
  lemma {:induction false} DiscoveredCost(
    web: Web, cfg: CrawlerConfig, visited: set<string>, pageUrl: string, depth: int, links: seq<string>, q: seq<Entry>)
    ensures QueueCost(web, cfg, q + Discovered(web, cfg, visited, pageUrl, depth, links))
      <= QueueCost(web, cfg, q) + LinksCost(web, pageUrl, links, Rem(cfg, depth + 1))
  {
    if links == [] {
      assert q + [] == q;
    } else {
      var init := links[..|links| - 1];
      DiscoveredCost(web, cfg, visited, pageUrl, depth, init, q);
      var d := Discovered(web, cfg, visited, pageUrl, depth, init);
      var l := LinkEntry(web, cfg, visited, pageUrl, depth, links[|links| - 1]);
      LinkEntryCost(web, cfg, visited, pageUrl, depth, links[|links| - 1]);
      if l == [] {
        assert d + l == d;
      } else {
        QueueCostAppend(web, cfg, q, d, l[0]);
      }
    }
  }

  /** What visiting `url` at `depth` appends to the queue. */
  ghost function Expansion(web: Web, cfg: CrawlerConfig, visited: set<string>, url: string, depth: int): seq<Entry> {
    if depth < cfg.maxDepth then Discovered(web, cfg, visited, url, depth, PageLinks(web, url)) else []
  }

  /** Visiting a well-queued entry only appends well-queued entries. */
  lemma ExpansionWellQueued(web: Web, cfg: CrawlerConfig, visited: set<string>, url: string, depth: int)
    requires WellQueued(web, cfg, (url, depth))
    ensures forall k :: 0 <= k < |Expansion(web, cfg, visited, url, depth)| ==>
      WellQueued(web, cfg, Expansion(web, cfg, visited, url, depth)[k])
  {
    DiscoveredEntries(web, cfg, visited, url, depth, PageLinks(web, url));
  }

  lemma CostOfPage(web: Web, cfg: CrawlerConfig, url: string, depth: int)
    requires depth < cfg.maxDepth
    ensures Cost(web, url, Rem(cfg, depth)) == 1 + LinksCost(web, url, PageLinks(web, url), Rem(cfg, depth + 1))
  {
    assert Rem(cfg, depth + 1) == Rem(cfg, depth) - 1;
  }

  lemma ExpansionBelowLimit(web: Web, cfg: CrawlerConfig, visited: set<string>, url: string, depth: int)
    requires depth < cfg.maxDepth
    ensures Expansion(web, cfg, visited, url, depth) == Discovered(web, cfg, visited, url, depth, PageLinks(web, url))
  {
  }

  /** What a visit appends costs less than the entry it dequeued. */
  lemma ExpansionCost(web: Web, cfg: CrawlerConfig, visited: set<string>, url: string, depth: int, rest: seq<Entry>)
    ensures QueueCost(web, cfg, rest + Expansion(web, cfg, visited, url, depth))
      < Cost(web, url, Rem(cfg, depth)) + QueueCost(web, cfg, rest)
  {
    if depth < cfg.maxDepth {
      ExpansionCostBelowLimit(web, cfg, visited, url, depth, rest);
    } else {
      assert Expansion(web, cfg, visited, url, depth) == [];
      assert rest + [] == rest;
      assert Cost(web, url, Rem(cfg, depth)) == 1;
    }
  }

  lemma ExpansionCostBelowLimit(web: Web, cfg: CrawlerConfig, visited: set<string>, url: string, depth: int, rest: seq<Entry>)
    requires depth < cfg.maxDepth
    ensures QueueCost(web, cfg, rest + Expansion(web, cfg, visited, url, depth))
      < Cost(web, url, Rem(cfg, depth)) + QueueCost(web, cfg, rest)
  {
    DiscoveredCost(web, cfg, visited, url, depth, PageLinks(web, url), rest);
    CostOfPage(web, cfg, url, depth);
    ExpansionBelowLimit(web, cfg, visited, url, depth);
  }

  /** Concatenation keeps every entry well-queued. */
  lemma ConcatWellQueued(web: Web, cfg: CrawlerConfig, a: seq<Entry>, b: seq<Entry>)
    requires forall k :: 0 <= k < |a| ==> WellQueued(web, cfg, a[k])
    requires forall k :: 0 <= k < |b| ==> WellQueued(web, cfg, b[k])
    ensures forall k :: 0 <= k < |a + b| ==> WellQueued(web, cfg, (a + b)[k])
  {
  }

  // ---------------------------------------------------------------
  // what the requests save
  // ---------------------------------------------------------------

  /** The document an explicit PDF URL yields: its PDF text, titled by the URL's last segment. */
  function ExplicitPdfDoc(web: Web, url: string): Option<PageDocument> {
    match ExplicitPdfText(web, url)
    case None => None
    case Some(text) =>
      var f := FetchUrl(url, web.respond(url));
      Some(PageDocument(LastSegment(url), text, true, f.status, f.contentType))
  }

  /** The document one request saves, in the explicit-PDF phase or in the breadth-first loop. */
  function SavedDoc(web: Web, explicitPhase: bool, url: string): Option<PageDocument> {
    if explicitPhase then ExplicitPdfDoc(web, url) else PageSave(web, url)
  }

  /** A row holds the columns the crawler passes to `save_document` for `d`. */
  predicate RowHolds(cfg: CrawlerConfig, d: PageDocument, doc: Document) {
    && doc.source == cfg.source && doc.celex.None? && doc.lawId.None? && doc.rawJson.None?
    && doc.title == d.title && doc.text == d.text && doc.isPdf == d.isPdf
    && doc.statusCode == d.statusCode && doc.contentType == d.contentType
  }

  /** One request leaves the rows alone when it yields no document, and otherwise upserts the document's row. */
  ghost predicate SavedStep(cfg: CrawlerConfig, d: Option<PageDocument>, url: string, before: Rows, after: Rows) {
    && (d.None? ==> after == before)
    && (d.Some? ==>
          var key := DocKey(cfg.jurisdiction, url);
          key in after && RowHolds(cfg, d.value, after[key]) && after == Upsert(before, key, after[key]))
  }

  /** How many of the requests `urls` yield a document. */
  function SavedCount(web: Web, explicitPhase: bool, urls: seq<string>): (n: nat)
    ensures n <= |urls|
    ensures n == 0 <== forall k :: 0 <= k < |urls| ==> SavedDoc(web, explicitPhase, urls[k]).None?
  {
    if urls == [] then 0
    else
      SavedCount(web, explicitPhase, urls[..|urls| - 1])
        + if SavedDoc(web, explicitPhase, urls[|urls| - 1]).Some? then 1 else 0
  }

  /**
   * The requests `urls` of one phase saved `count` documents, one for each
   * request that yields a document, and each of them is a row of `rows`.
   */
  ghost predicate Recorded(web: Web, cfg: CrawlerConfig, explicitPhase: bool, urls: seq<string>, count: nat, rows: Rows) {
    && count == SavedCount(web, explicitPhase, urls)
    && forall k :: 0 <= k < |urls| && SavedDoc(web, explicitPhase, urls[k]).Some? ==>
         && DocKey(cfg.jurisdiction, urls[k]) in rows
         && RowHolds(cfg, SavedDoc(web, explicitPhase, urls[k]).value, rows[DocKey(cfg.jurisdiction, urls[k])])
  }

  /**
   * A request for a URL not requested before keeps the earlier rows,
   * records its own document, and touches only its own key.
   */
  lemma RequestStep(web: Web, cfg: CrawlerConfig, explicitPhase: bool, orig: Rows, urls: seq<string>, count: nat,
                    url: string, before: Rows, after: Rows)
    requires OnlyTouches(orig, before, cfg.jurisdiction, urls)
    requires Recorded(web, cfg, explicitPhase, urls, count, before)
    requires url !in urls
    requires SavedStep(cfg, SavedDoc(web, explicitPhase, url), url, before, after)
    ensures OnlyTouches(orig, after, cfg.jurisdiction, urls + [url])
    ensures Recorded(web, cfg, explicitPhase, urls + [url],
      count + if SavedDoc(web, explicitPhase, url).Some? then 1 else 0, after)
  {
    var all := urls + [url];
    assert all[..|urls|] == urls;
    if SavedDoc(web, explicitPhase, url).Some? {
      OnlyTouchesUpsert(orig, before, cfg.jurisdiction, urls, url, after[DocKey(cfg.jurisdiction, url)]);
    } else {
      OnlyTouchesExtend(orig, before, cfg.jurisdiction, urls, url);
    }
    forall k | 0 <= k < |all| && SavedDoc(web, explicitPhase, all[k]).Some?
      ensures DocKey(cfg.jurisdiction, all[k]) in after
      ensures RowHolds(cfg, SavedDoc(web, explicitPhase, all[k]).value, after[DocKey(cfg.jurisdiction, all[k])])
    {
      if k < |urls| {
        assert all[k] == urls[k] != url;
      }
    }
  }

  /** Rows recorded for URLs that a later phase does not touch survive it. */
  lemma RecordedKept(web: Web, cfg: CrawlerConfig, explicitPhase: bool, urls: seq<string>, count: nat,
                     before: Rows, after: Rows, touched: seq<string>)
    requires Recorded(web, cfg, explicitPhase, urls, count, before)
    requires OnlyTouches(before, after, cfg.jurisdiction, touched)
    requires forall k :: 0 <= k < |urls| ==> urls[k] !in touched
    ensures Recorded(web, cfg, explicitPhase, urls, count, after)
  {
  }

  /** In a list without repeats, no URL of a prefix occurs again after it. */
  lemma DistinctSplit(s: seq<string>, n: nat)
    requires Distinct(s) && n <= |s|
    ensures forall k :: 0 <= k < n ==> s[k] !in s[n..]
  {
    forall k | 0 <= k < n
      ensures s[k] !in s[n..]
    {
      forall j | 0 <= j < |s| - n
        ensures s[n..][j] != s[k]
      {
        assert s[n..][j] == s[n + j];
      }
    }
  }

  // ---------------------------------------------------------------
  // the two phases
  // ---------------------------------------------------------------

  /**
   * The state of the explicit-PDF phase after `n` of the URLs: each of
   * those `n` URLs was requested; the requested ones are distinct explicit
   * PDF URLs making up `visited`, at most `n` of them.
   */
  ghost predicate PdfPhase(cfg: CrawlerConfig, n: nat, visited: set<string>, requested: seq<string>) {
    && n <= |cfg.extraPdfUrls|
    && Distinct(requested) && (forall u :: u in visited <==> u in requested)
    && (forall k :: 0 <= k < |requested| ==> requested[k] in cfg.extraPdfUrls)
    && (forall j :: 0 <= j < n ==> cfg.extraPdfUrls[j] in visited)
    && |requested| <= n
  }

  /** Requesting the next explicit PDF URL, when it is new, keeps `PdfPhase`. */
  lemma PdfPhaseRequest(cfg: CrawlerConfig, i: nat, visited: set<string>, requested: seq<string>)
    requires i < |cfg.extraPdfUrls| && cfg.extraPdfUrls[i] !in visited
    requires PdfPhase(cfg, i, visited, requested)
    ensures var u := cfg.extraPdfUrls[i];
      PdfPhase(cfg, i + 1, visited + {u}, requested + [u])
  {
    var r := requested + [cfg.extraPdfUrls[i]];
    assert forall k :: 0 <= k < |requested| ==> r[k] == requested[k];
  }

  /** Skipping an explicit PDF URL already requested keeps `PdfPhase`. */
  lemma PdfPhaseSkip(cfg: CrawlerConfig, i: nat, visited: set<string>, requested: seq<string>)
    requires i < |cfg.extraPdfUrls| && cfg.extraPdfUrls[i] in visited
    requires PdfPhase(cfg, i, visited, requested)
    ensures PdfPhase(cfg, i + 1, visited, requested)
  {
  }

  /**
   * Phase 2.1: the explicit PDF URLs, fetched once each and not
   * budget-checked. Every one of them is requested, and `saved` counts the
   * requests that yield a document, each of which is a row.
   */
  method FetchExplicitPdfs(store: DocumentTable, cfg: CrawlerConfig, web: Web)
    returns (visited: set<string>, requested: seq<string>, saved: nat)
    requires store.Valid()
    modifies store
    ensures store.Valid()
    ensures Distinct(requested) && (forall u :: u in visited <==> u in requested)
    ensures forall k :: 0 <= k < |requested| ==> requested[k] in cfg.extraPdfUrls
    ensures forall u :: u in cfg.extraPdfUrls ==> u in requested
    ensures saved <= |requested| <= |cfg.extraPdfUrls|
    ensures Recorded(web, cfg, true, requested, saved, store.rows)
    ensures OnlyTouches(old(store.rows), store.rows, cfg.jurisdiction, requested)
  {
    visited, requested, saved := {}, [], 0;
    for i := 0 to |cfg.extraPdfUrls|
      invariant store.Valid()
      invariant PdfPhase(cfg, i, visited, requested)
      invariant Recorded(web, cfg, true, requested, saved, store.rows)
      invariant OnlyTouches(old(store.rows), store.rows, cfg.jurisdiction, requested)
    {
      var pdfUrl := cfg.extraPdfUrls[i];
      if pdfUrl in visited {
        PdfPhaseSkip(cfg, i, visited, requested);
        continue;
      }
      ghost var rows := store.rows;
      ghost var before := requested;
      PdfPhaseRequest(cfg, i, visited, requested);
      visited := visited + {pdfUrl};
      requested := requested + [pdfUrl];
      var savedOne := SaveExplicitPdf(store, cfg, web, pdfUrl, web.clock(|requested|));
      RequestStep(web, cfg, true, old(store.rows), before, saved, pdfUrl, rows, store.rows);
      if savedOne {
        saved := saved + 1;
      }
    }
  }

  /** The text an explicit PDF URL yields: a 2xx PDF body that pdfminer reads to a non-empty text. */
  function ExplicitPdfText(web: Web, url: string): Option<string> {
    var f := FetchUrl(url, web.respond(url));
    if f.pdf.None? || f.pdf.value == [] then None
    else
      var text := ExtractPdfText(f.pdf.value, web.pdfMiner);
      if text == "" then None else Some(text)
  }

  /** The body of the explicit-PDF loop once the URL is marked visited: fetch it and save its text. */
  method SaveExplicitPdf(store: DocumentTable, cfg: CrawlerConfig, web: Web, pdfUrl: string, now: string)
    returns (savedOne: bool)
    requires store.Valid()
    modifies store
    ensures store.Valid()
    ensures savedOne <==> ExplicitPdfText(web, pdfUrl).Some?
    ensures !savedOne ==> store.rows == old(store.rows)
    ensures savedOne ==> store.rows == Upsert(old(store.rows), DocKey(cfg.jurisdiction, pdfUrl),
      var f := FetchUrl(pdfUrl, web.respond(pdfUrl));
      Document(old(store.nextId), cfg.source, None, None, LastSegment(pdfUrl), ExplicitPdfText(web, pdfUrl).value,
        None, true, f.contentType, f.status, now))
    ensures SavedStep(cfg, SavedDoc(web, true, pdfUrl), pdfUrl, old(store.rows), store.rows)
  {
    var f := FetchUrl(pdfUrl, web.respond(pdfUrl));
    if f.pdf.None? || f.pdf.value == [] {
      return false;
    }
    var text := ExtractPdfText(f.pdf.value, web.pdfMiner);
    if text == "" {
      return false;
    }
    store.SaveDocument(cfg.jurisdiction, cfg.source, LastSegment(pdfUrl), text, true, pdfUrl,
      f.status, f.contentType, None, None, None, now);
    return true;
  }

  // ---------------------------------------------------------------
  // one dequeued URL (crawler_scrapper.py:530-596)
  // ---------------------------------------------------------------

  /** The columns `crawl_generic` passes to `save_document` for one page. */
  datatype PageDocument = PageDocument(
    title: string, text: string, isPdf: bool, statusCode: Option<int>, contentType: Option<string>)

  /**
   * The document saved for a fetched URL, if any: a PDF with extractable
   * text, titled by the URL's last segment; or an HTML page whose cleaned
   * text is non-empty, titled by its `<title>` or else by the URL.
   */
  function PageSave(web: Web, url: string): Option<PageDocument> {
    var f := FetchUrl(url, web.respond(url));
    if f.status.None? then None
    else if f.pdf.Some? then
      var text := ExtractPdfText(f.pdf.value, web.pdfMiner);
      if text == "" then None else Some(PageDocument(LastSegment(url), text, true, f.status, f.contentType))
    else if f.html.None? || f.html.value == "" then None
    else
      var page := web.parseHtml(f.html.value);
      var text := CleanText(page.text);
      if text == "" then None
      else Some(PageDocument(if page.title != "" then page.title else url, text, false, f.status, f.contentType))
  }

  /**
   * Routing of one page: a request exception or a non-2xx status saves
   * nothing and opens no link; a 2xx response routed to PDF saves at most a
   * PDF document and opens no link; any other 2xx response saves at most an
   * HTML document. A saved document always has text.
   */
  lemma PageRouting(web: Web, url: string)
    ensures web.respond(url).RequestFailed? ==> PageSave(web, url).None? && PageLinks(web, url) == []
    ensures web.respond(url).Response? && !IsSuccess(web.respond(url).status) ==>
      PageSave(web, url).None? && PageLinks(web, url) == []
    ensures web.respond(url).Response? && RoutesToPdf(url, web.respond(url).contentTypeHeader) ==>
      PageLinks(web, url) == [] && (PageSave(web, url).Some? ==> PageSave(web, url).value.isPdf)
    ensures web.respond(url).Response? && !RoutesToPdf(url, web.respond(url).contentTypeHeader) ==>
      PageSave(web, url).Some? ==> !PageSave(web, url).value.isPdf
    ensures PageSave(web, url).Some? ==> PageSave(web, url).value.text != ""
  {
  }

  /**
   * Fetch one dequeued URL, save its document if it has one, and, below
   * the depth limit, append its discovered links to the queue.
   */
  method VisitPage(
    store: DocumentTable, cfg: CrawlerConfig, web: Web, url: string, depth: int,
    visited: set<string>, queue: seq<Entry>, now: string)
    returns (savedOne: bool, q: seq<Entry>)
    requires store.Valid()
    modifies store
    ensures store.Valid()
    ensures savedOne <==> PageSave(web, url).Some?
    ensures !savedOne ==> store.rows == old(store.rows)
    ensures savedOne ==> store.rows == Upsert(old(store.rows), DocKey(cfg.jurisdiction, url),
      var d := PageSave(web, url).value;
      Document(old(store.nextId), cfg.source, None, None, d.title, d.text, None, d.isPdf, d.contentType, d.statusCode, now))
    ensures SavedStep(cfg, SavedDoc(web, false, url), url, old(store.rows), store.rows)
    ensures q == queue + Expansion(web, cfg, visited, url, depth)
  {
    savedOne, q := false, queue;
    var f := FetchUrl(url, web.respond(url));
    if f.status.None? {
      return;
    }
    if f.pdf.Some? {
      var text := ExtractPdfText(f.pdf.value, web.pdfMiner);
      if text != "" {
        store.SaveDocument(cfg.jurisdiction, cfg.source, LastSegment(url), text, true, url,
          f.status, f.contentType, None, None, None, now);
        savedOne := true;
      }
      return;
    }
    if f.html.None? || f.html.value == "" {
      return;
    }
    var title, content, links := ExtractHtmlText(web.parseHtml(f.html.value));
    if content != "" {
      store.SaveDocument(cfg.jurisdiction, cfg.source, if title != "" then title else url, content, false, url,
        f.status, f.contentType, None, None, None, now);
      savedOne := true;
    }
    if depth < cfg.maxDepth {
      q := EnqueueLinks(web, cfg, visited, url, depth, links, queue);
    }
    assert links == PageLinks(web, url);
  }

  /** Every entry of `q` is a seed at depth 0 or a followable URL within the depth bound. */
  predicate AllWellQueued(web: Web, cfg: CrawlerConfig, q: seq<Entry>) {
    forall k :: 0 <= k < |q| ==> WellQueued(web, cfg, q[k])
  }

  /**
   * The requests made since `requested0`: they extend it, name no URL
   * twice, make up `visited`, and each new one is a seed or passed the
   * domain filter.
   */
  ghost predicate RequestLog(web: Web, cfg: CrawlerConfig, requested0: seq<string>, visited: set<string>, requested: seq<string>) {
    && Distinct(requested) && (forall u :: u in visited <==> u in requested)
    && |requested0| <= |requested| && requested[..|requested0|] == requested0
    && forall k :: |requested0| <= k < |requested| ==> requested[k] in cfg.startUrls || Follows(web, cfg, requested[k])
  }

  /** Requesting the URL of an unvisited, well-queued entry extends the log. */
  lemma RequestLogAdd(web: Web, cfg: CrawlerConfig, requested0: seq<string>, visited: set<string>,
                      requested: seq<string>, e: Entry)
    requires RequestLog(web, cfg, requested0, visited, requested)
    requires WellQueued(web, cfg, e) && e.0 !in visited
    ensures RequestLog(web, cfg, requested0, visited + {e.0}, requested + [e.0])
    ensures (requested + [e.0])[|requested0|..] == requested[|requested0|..] + [e.0]
    ensures e.0 !in requested[|requested0|..]
  {
    var r := requested + [e.0];
    assert r[..|requested0|] == requested[..|requested0|];
  }

  /**
   * The state of the breadth-first loop as to requests and rows: the log
   * of requests since `requested0`, the documents saved since `saved0`,
   * one per request that yields a document and at most one per request,
   * each a row of `rows`, and no other row changed since `orig`.
   */
  ghost predicate Crawled(web: Web, cfg: CrawlerConfig, orig: Rows, requested0: seq<string>, saved0: nat,
                          visited: set<string>, requested: seq<string>, saved: nat, rows: Rows) {
    && RequestLog(web, cfg, requested0, visited, requested)
    && saved0 <= saved <= saved0 + (|requested| - |requested0|)
    && Recorded(web, cfg, false, requested[|requested0|..], saved - saved0, rows)
    && OnlyTouches(orig, rows, cfg.jurisdiction, requested[|requested0|..])
  }

  /** Requesting and visiting an unvisited, well-queued entry keeps `Crawled`. */
  lemma CrawledStep(web: Web, cfg: CrawlerConfig, orig: Rows, requested0: seq<string>, saved0: nat,
                    visited: set<string>, requested: seq<string>, saved: nat, e: Entry, before: Rows, after: Rows)
    requires Crawled(web, cfg, orig, requested0, saved0, visited, requested, saved, before)
    requires WellQueued(web, cfg, e) && e.0 !in visited
    requires SavedStep(cfg, SavedDoc(web, false, e.0), e.0, before, after)
    ensures Crawled(web, cfg, orig, requested0, saved0, visited + {e.0}, requested + [e.0],
      saved + (if PageSave(web, e.0).Some? then 1 else 0), after)
  {
    RequestLogAdd(web, cfg, requested0, visited, requested, e);
    RequestStep(web, cfg, false, orig, requested[|requested0|..], saved - saved0, e.0, before, after);
  }

  /**
   * Visiting a well-queued entry keeps every entry of the rest of the
   * queue and of the log of queued entries well queued, extends that log,
   * and lowers the queue's cost.
   */
  lemma ExpansionStep(web: Web, cfg: CrawlerConfig, visited: set<string>, e: Entry,
                      rest: seq<Entry>, queued: seq<Entry>, queue0: seq<Entry>)
    requires WellQueued(web, cfg, e)
    requires AllWellQueued(web, cfg, rest) && AllWellQueued(web, cfg, queued)
    requires |queue0| <= |queued| && queued[..|queue0|] == queue0
    ensures var found := Expansion(web, cfg, visited, e.0, e.1);
      && AllWellQueued(web, cfg, rest + found)
      && AllWellQueued(web, cfg, queued + found)
      && (queued + found)[..|queue0|] == queue0
      && QueueCost(web, cfg, rest + found) < Cost(web, e.0, Rem(cfg, e.1)) + QueueCost(web, cfg, rest)
  {
    var found := Expansion(web, cfg, visited, e.0, e.1);
    ExpansionCost(web, cfg, visited, e.0, e.1, rest);
    ExpansionWellQueued(web, cfg, visited, e.0, e.1);
    ConcatWellQueued(web, cfg, rest, found);
    ConcatWellQueued(web, cfg, queued, found);
    assert (queued + found)[..|queue0|] == queued[..|queue0|];
  }

  // ---------------------------------------------------------------
  // what the breadth-first loop reaches
  // ---------------------------------------------------------------

  /**
   * One link of the page of `e` is taken care of: it does not normalise to
   * a non-empty URL that passes the domain filter, or its URL was
   * requested, or its entry one level down is pending.
   */
  predicate FollowedLink(web: Web, cfg: CrawlerConfig, e: Entry, link: string, requested: seq<string>, pending: seq<Entry>) {
    match NormalizeUrl(e.0, link, web.urljoin)
    case None => true
    case Some(v) => v == "" || !Follows(web, cfg, v) || v in requested || (v, e.1 + 1) in pending
  }

  /** Every link of the page of `e` is taken care of. */
  ghost predicate LinksFollowed(web: Web, cfg: CrawlerConfig, e: Entry, requested: seq<string>, pending: seq<Entry>) {
    forall link :: link in PageLinks(web, e.0) ==> FollowedLink(web, cfg, e, link, requested, pending)
  }

  /** Every link that yields an entry of its own has that entry among the discovered ones. */
  lemma {:induction false} DiscoveredComplete(
    web: Web, cfg: CrawlerConfig, visited: set<string>, pageUrl: string, depth: int, links: seq<string>)
    ensures forall link, x :: link in links && x in LinkEntry(web, cfg, visited, pageUrl, depth, link) ==>
      x in Discovered(web, cfg, visited, pageUrl, depth, links)
  {
    if links != [] {
      var init := links[..|links| - 1];
      DiscoveredComplete(web, cfg, visited, pageUrl, depth, init);
      assert links == init + [links[|links| - 1]];
    }
  }

  /** A page visited below the depth limit takes care of all its links through the entries it appends. */
  lemma LinksFollowedByVisit(web: Web, cfg: CrawlerConfig, e: Entry, visited: set<string>, requested: seq<string>, rest: seq<Entry>)
    requires e.1 < cfg.maxDepth
    requires forall u :: u in visited ==> u in requested
    ensures LinksFollowed(web, cfg, e, requested, rest + Expansion(web, cfg, visited, e.0, e.1))
  {
    var found := Expansion(web, cfg, visited, e.0, e.1);
    DiscoveredComplete(web, cfg, visited, e.0, e.1, PageLinks(web, e.0));
    forall link | link in PageLinks(web, e.0)
      ensures FollowedLink(web, cfg, e, link, requested, rest + found)
    {
      match NormalizeUrl(e.0, link, web.urljoin)
      case None =>
      case Some(v) =>
        if v != "" && Follows(web, cfg, v) && v !in visited {
          assert (v, e.1 + 1) in LinkEntry(web, cfg, visited, e.0, e.1, link);
          assert (v, e.1 + 1) in found;
        }
    }
  }

  /** Taking the head off the pending entries keeps a page's links taken care of once the head's URL is requested. */
  lemma LinksFollowedPop(web: Web, cfg: CrawlerConfig, e: Entry, requested: seq<string>, queue: seq<Entry>,
                         requested': seq<string>, more: seq<Entry>)
    requires LinksFollowed(web, cfg, e, requested, queue)
    requires queue != [] && queue[0].0 in requested'
    requires forall u :: u in requested ==> u in requested'
    ensures LinksFollowed(web, cfg, e, requested', queue[1..] + more)
  {
    forall link | link in PageLinks(web, e.0)
      ensures FollowedLink(web, cfg, e, link, requested', queue[1..] + more)
    {
      match NormalizeUrl(e.0, link, web.urljoin)
      case None =>
      case Some(v) =>
        if (v, e.1 + 1) in queue && (v, e.1 + 1) != queue[0] {
          var i :| 0 <= i < |queue| && queue[i] == (v, e.1 + 1);
          assert queue[1..][i - 1] == queue[i];
        }
    }
  }

  /**
   * How far the breadth-first loop has come: every entry ever queued is
   * either handled (taken off the queue, its URL requested) or still
   * pending in `queue`; `visits` are the handled entries whose URL was
   * fetched, one per new request and in request order; and every page
   * visited below the depth limit has all its links taken care of.
   */
  ghost predicate Progress(web: Web, cfg: CrawlerConfig, requested0: seq<string>, requested: seq<string>,
                           visits: seq<Entry>, handled: seq<Entry>, queue: seq<Entry>, queued: seq<Entry>) {
    && queued == handled + queue
    && Handled(requested0, requested, visits, handled)
    && Frontier(web, cfg, visits, requested, queue)
  }

  /**
   * The URL of every handled entry was requested, and the visits are the
   * handled entries behind the requests made since `requested0`, in order.
   */
  ghost predicate Handled(requested0: seq<string>, requested: seq<string>, visits: seq<Entry>, handled: seq<Entry>) {
    && (forall k :: 0 <= k < |handled| ==> handled[k].0 in requested)
    && |requested0| <= |requested| && |visits| == |requested| - |requested0|
    && (forall k :: 0 <= k < |visits| ==> visits[k].0 == requested[|requested0| + k] && visits[k] in handled)
  }

  /** Handling an entry whose URL was requested, or requesting it as a new visit, keeps `Handled`. */
  lemma HandledStep(requested0: seq<string>, requested: seq<string>, visits: seq<Entry>, handled: seq<Entry>, e: Entry)
    requires Handled(requested0, requested, visits, handled)
    ensures e.0 in requested ==> Handled(requested0, requested, visits, handled + [e])
    ensures Handled(requested0, requested + [e.0], visits + [e], handled + [e])
  {
  }

  /** Every page visited below the depth limit has all its links taken care of. */
  ghost predicate Frontier(web: Web, cfg: CrawlerConfig, visits: seq<Entry>, requested: seq<string>, pending: seq<Entry>) {
    forall k :: 0 <= k < |visits| && visits[k].1 < cfg.maxDepth ==> LinksFollowed(web, cfg, visits[k], requested, pending)
  }

  /** Skipping a dequeued entry whose URL was already requested keeps `Progress`. */
  lemma ProgressSkip(web: Web, cfg: CrawlerConfig, requested0: seq<string>, requested: seq<string>,
                     visits: seq<Entry>, handled: seq<Entry>, queue: seq<Entry>, queued: seq<Entry>)
    requires Progress(web, cfg, requested0, requested, visits, handled, queue, queued)
    requires queue != [] && queue[0].0 in requested
    ensures Progress(web, cfg, requested0, requested, visits, handled + [queue[0]], queue[1..], queued)
  {
    assert queued == (handled + [queue[0]]) + queue[1..];
    assert queue[1..] + [] == queue[1..];
    HandledStep(requested0, requested, visits, handled, queue[0]);
    forall k | 0 <= k < |visits| && visits[k].1 < cfg.maxDepth
      ensures LinksFollowed(web, cfg, visits[k], requested, queue[1..])
    {
      LinksFollowedPop(web, cfg, visits[k], requested, queue, requested, []);
    }
  }

  /** Moving the head of the queue to the handled log, and appending `found` to both the queue and the log of queued entries. */
  lemma QueuedStep(handled: seq<Entry>, queue: seq<Entry>, found: seq<Entry>)
    requires queue != []
    ensures (handled + queue) + found == (handled + [queue[0]]) + (queue[1..] + found)
  {
    assert queue == [queue[0]] + queue[1..];
  }

  /** Visiting a dequeued entry whose URL is new, and appending its expansion, keeps `Progress`. */
  lemma ProgressVisit(web: Web, cfg: CrawlerConfig, requested0: seq<string>, requested: seq<string>,
                      visits: seq<Entry>, handled: seq<Entry>, queue: seq<Entry>, queued: seq<Entry>, visited: set<string>)
    requires Progress(web, cfg, requested0, requested, visits, handled, queue, queued)
    requires queue != [] && queue[0].0 !in requested
    requires forall u :: u in visited <==> u in requested
    ensures var e := queue[0];
      var found := Expansion(web, cfg, visited + {e.0}, e.0, e.1);
      Progress(web, cfg, requested0, requested + [e.0], visits + [e], handled + [e], queue[1..] + found, queued + found)
  {
    var e := queue[0];
    var found := Expansion(web, cfg, visited + {e.0}, e.0, e.1);
    QueuedStep(handled, queue, found);
    HandledStep(requested0, requested, visits, handled, e);
    FrontierVisit(web, cfg, requested, visits, queue, visited);
  }

  /** The link part of `ProgressVisit`: earlier visits keep their links taken care of, and the new one has its own. */
  lemma FrontierVisit(web: Web, cfg: CrawlerConfig, requested: seq<string>, visits: seq<Entry>, queue: seq<Entry>,
                      visited: set<string>)
    requires Frontier(web, cfg, visits, requested, queue)
    requires queue != []
    requires forall u :: u in visited ==> u in requested
    ensures var e := queue[0];
      Frontier(web, cfg, visits + [e], requested + [e.0], queue[1..] + Expansion(web, cfg, visited + {e.0}, e.0, e.1))
  {
    var e := queue[0];
    var found := Expansion(web, cfg, visited + {e.0}, e.0, e.1);
    var requested', visits' := requested + [e.0], visits + [e];
    forall k | 0 <= k < |visits'| && visits'[k].1 < cfg.maxDepth
      ensures LinksFollowed(web, cfg, visits'[k], requested', queue[1..] + found)
    {
      if k < |visits| {
        LinksFollowedPop(web, cfg, visits[k], requested, queue, requested', found);
      } else {
        LinksFollowedByVisit(web, cfg, e, visited + {e.0}, requested', queue[1..]);
      }
    }
  }

  /**
   * What the breadth-first loop reached, from its `Progress`: each visit is
   * a well-queued entry, and once the queue is empty every entry of
   * `queue0` and every link of a page visited below the depth limit has
   * been taken care of.
   */
  lemma LoopReach(web: Web, cfg: CrawlerConfig, queue0: seq<Entry>, requested0: seq<string>, requested: seq<string>,
                  visits: seq<Entry>, handled: seq<Entry>, rest: seq<Entry>, queued: seq<Entry>)
    requires |queue0| <= |queued| && queued[..|queue0|] == queue0
    requires AllWellQueued(web, cfg, queued)
    requires Progress(web, cfg, requested0, requested, visits, handled, rest, queued)
    ensures forall k :: 0 <= k < |visits| ==> WellQueued(web, cfg, visits[k])
    ensures rest == [] ==> forall k :: 0 <= k < |queue0| ==> queue0[k].0 in requested
    ensures rest == [] ==> Frontier(web, cfg, visits, requested, [])
  {
    forall k | 0 <= k < |visits|
      ensures WellQueued(web, cfg, visits[k])
    {
      var i :| 0 <= i < |handled| && handled[i] == visits[k];
      assert queued[i] == handled[i];
    }
    if rest == [] {
      assert queued == handled;
      forall k | 0 <= k < |queue0|
        ensures queue0[k].0 in requested
      {
        assert queued[k] == queue0[k];
      }
    }
  }

  /**
   * `c` is an entry that the visit of `p` queues: `p` is below the depth
   * limit, and `c` is one level down and the normalised form of one of
   * the links of `p`'s page.
   */
  ghost predicate LinkedFrom(web: Web, cfg: CrawlerConfig, p: Entry, c: Entry) {
    && p.1 < cfg.maxDepth
    && c.1 == p.1 + 1
    && exists j :: 0 <= j < |PageLinks(web, p.0)| && NormalizeUrl(p.0, PageLinks(web, p.0)[j], web.urljoin) == Some(c.0)
  }

  /** `c` is one of the `roots`, or is linked from one of the pages `parents`. */
  ghost predicate DescendsFrom(web: Web, cfg: CrawlerConfig, roots: seq<Entry>, parents: seq<Entry>, c: Entry) {
    c in roots || exists i :: 0 <= i < |parents| && LinkedFrom(web, cfg, parents[i], c)
  }

  /**
   * Where the loop's entries come from: every entry ever queued is one of
   * the initial entries or linked from a page visited so far, and every
   * visit is an initial entry or linked from an earlier visit.
   */
  ghost predicate Origins(web: Web, cfg: CrawlerConfig, queue0: seq<Entry>, visits: seq<Entry>, queued: seq<Entry>) {
    && (forall j :: 0 <= j < |queued| ==> DescendsFrom(web, cfg, queue0, visits, queued[j]))
    && (forall k :: 0 <= k < |visits| ==> DescendsFrom(web, cfg, queue0, visits[..k], visits[k]))
  }

  /** Every entry a visit appends is linked from the visited entry. */
  lemma ExpansionLinked(web: Web, cfg: CrawlerConfig, visited: set<string>, e: Entry)
    ensures forall k :: 0 <= k < |Expansion(web, cfg, visited, e.0, e.1)| ==>
      LinkedFrom(web, cfg, e, Expansion(web, cfg, visited, e.0, e.1)[k])
  {
    DiscoveredEntries(web, cfg, visited, e.0, e.1, PageLinks(web, e.0));
  }

  /** Having more pages visited keeps an entry's origin. */
  lemma DescendsFromMore(web: Web, cfg: CrawlerConfig, roots: seq<Entry>, parents: seq<Entry>, more: seq<Entry>, c: Entry)
    requires DescendsFrom(web, cfg, roots, parents, c)
    ensures DescendsFrom(web, cfg, roots, parents + more, c)
  {
    if c !in roots {
      var i :| 0 <= i < |parents| && LinkedFrom(web, cfg, parents[i], c);
      assert (parents + more)[i] == parents[i];
    }
  }

  /** Visiting the head of the queue, and queueing its expansion, keeps `Origins`. */
  lemma OriginsVisit(web: Web, cfg: CrawlerConfig, queue0: seq<Entry>, visits: seq<Entry>, handled: seq<Entry>,
                     queue: seq<Entry>, queued: seq<Entry>, visited: set<string>)
    requires Origins(web, cfg, queue0, visits, queued)
    requires queued == handled + queue && queue != []
    ensures var e := queue[0];
      Origins(web, cfg, queue0, visits + [e], queued + Expansion(web, cfg, visited + {e.0}, e.0, e.1))
  {
    var e := queue[0];
    var found := Expansion(web, cfg, visited + {e.0}, e.0, e.1);
    var visits', queued' := visits + [e], queued + found;
    ExpansionLinked(web, cfg, visited + {e.0}, e);
    forall j | 0 <= j < |queued'|
      ensures DescendsFrom(web, cfg, queue0, visits', queued'[j])
    {
      if j < |queued| {
        DescendsFromMore(web, cfg, queue0, visits, [e], queued[j]);
      } else {
        assert LinkedFrom(web, cfg, visits'[|visits|], found[j - |queued|]);
      }
    }
    forall k | 0 <= k < |visits'|
      ensures DescendsFrom(web, cfg, queue0, visits'[..k], visits'[k])
    {
      if k < |visits| {
        assert visits'[..k] == visits[..k];
      } else {
        assert queued[|handled|] == e;
        assert visits'[..k] == visits;
      }
    }
  }

  /** Visit `k` is a start URL at depth 0, or is linked from an earlier visit. */
  ghost predicate SeedOrLinked(web: Web, cfg: CrawlerConfig, visits: seq<Entry>, k: int)
    requires 0 <= k < |visits|
  {
    || (visits[k].1 == 0 && visits[k].0 in cfg.startUrls)
    || exists i :: 0 <= i < k && LinkedFrom(web, cfg, visits[i], visits[k])
  }

  /**
   * With the seeds as the initial entries, every visit is a start URL at
   * depth 0 or is linked from an earlier visit.
   */
  lemma SeedDescent(web: Web, cfg: CrawlerConfig, queue0: seq<Entry>, visits: seq<Entry>)
    requires |queue0| == |cfg.startUrls| && forall k :: 0 <= k < |queue0| ==> queue0[k] == (cfg.startUrls[k], 0)
    requires forall k :: 0 <= k < |visits| ==> DescendsFrom(web, cfg, queue0, visits[..k], visits[k])
    ensures forall k :: 0 <= k < |visits| ==> SeedOrLinked(web, cfg, visits, k)
  {
    forall k | 0 <= k < |visits|
      ensures SeedOrLinked(web, cfg, visits, k)
    {
      if visits[k] in queue0 {
        var j :| 0 <= j < |queue0| && queue0[j] == visits[k];
        assert visits[k].0 == cfg.startUrls[j];
      } else {
        var i :| 0 <= i < |visits[..k]| && LinkedFrom(web, cfg, visits[..k][i], visits[k]);
        assert visits[..k][i] == visits[i];
      }
    }
  }

  /** Seeds queued in order are requested when every queued URL is. */
  lemma SeedsRequested(cfg: CrawlerConfig, queue0: seq<Entry>, requested: seq<string>)
    requires |queue0| == |cfg.startUrls| && forall k :: 0 <= k < |queue0| ==> queue0[k] == (cfg.startUrls[k], 0)
    requires forall k :: 0 <= k < |queue0| ==> queue0[k].0 in requested
    ensures forall u :: u in cfg.startUrls ==> u in requested
  {
    forall u | u in cfg.startUrls
      ensures u in requested
    {
      var j :| 0 <= j < |cfg.startUrls| && cfg.startUrls[j] == u;
      assert queue0[j].0 == u;
    }
  }

  /** The seed queue: every start URL at depth 0, in order. */
  method SeedQueue(cfg: CrawlerConfig) returns (queue: seq<Entry>)
    ensures |queue| == |cfg.startUrls|
    ensures forall k :: 0 <= k < |queue| ==> queue[k] == (cfg.startUrls[k], 0)
  {
    queue := [];
    for i := 0 to |cfg.startUrls|
      invariant |queue| == i
      invariant forall k :: 0 <= k < i ==> queue[k] == (cfg.startUrls[k], 0)
    {
      queue := queue + [(cfg.startUrls[i], 0)];
    }
  }

  /**
   * Phase 2.2: the breadth-first loop. `visits` are the dequeued entries
   * that were fetched, in request order; each is an entry of `queue0` or
   * linked from an earlier visit. Unless the budget was met, the
   * queue ran dry: every URL of `queue0` was requested, and every link of
   * a page fetched below the depth limit was taken care of.
   */
  method CrawlBreadthFirst(
    store: DocumentTable, cfg: CrawlerConfig, web: Web,
    queue0: seq<Entry>, visited0: set<string>, requested0: seq<string>, saved0: nat)
    returns (visited: set<string>, requested: seq<string>, saved: nat, ghost visits: seq<Entry>)
    requires store.Valid()
    requires AllWellQueued(web, cfg, queue0)
    requires Distinct(requested0) && (forall u :: u in visited0 <==> u in requested0)
    modifies store
    ensures store.Valid()
    ensures RequestLog(web, cfg, requested0, visited, requested)
    ensures saved0 <= saved <= saved0 + (|requested| - |requested0|)
    ensures saved <= Max(cfg.maxPages, saved0)
    ensures Recorded(web, cfg, false, requested[|requested0|..], saved - saved0, store.rows)
    ensures OnlyTouches(old(store.rows), store.rows, cfg.jurisdiction, requested[|requested0|..])
    ensures |visits| == |requested| - |requested0|
    ensures forall k :: 0 <= k < |visits| ==> visits[k].0 == requested[|requested0| + k] && WellQueued(web, cfg, visits[k])
    ensures saved < cfg.maxPages ==> forall k :: 0 <= k < |queue0| ==> queue0[k].0 in requested
    ensures forall k :: 0 <= k < |visits| ==> DescendsFrom(web, cfg, queue0, visits[..k], visits[k])
    ensures saved < cfg.maxPages ==> Frontier(web, cfg, visits, requested, [])
  {
    visited, requested, saved := visited0, requested0, saved0;
    ghost var queued, handled := queue0, [];
    visits := [];
    var queue := queue0;
    assert requested[|requested0|..] == [];
    while queue != [] && saved < cfg.maxPages
      invariant store.Valid()
      invariant AllWellQueued(web, cfg, queue)
      invariant Crawled(web, cfg, old(store.rows), requested0, saved0, visited, requested, saved, store.rows)
      invariant saved <= Max(cfg.maxPages, saved0)
      invariant |queue0| <= |queued| && queued[..|queue0|] == queue0
      invariant AllWellQueued(web, cfg, queued)
      invariant Progress(web, cfg, requested0, requested, visits, handled, queue, queued)
      invariant Origins(web, cfg, queue0, visits, queued)
      decreases QueueCost(web, cfg, queue)
    {
      ghost var entry, pending := queue[0], queue;
      var url, depth := queue[0].0, queue[0].1;
      QueueCostPopFront(web, cfg, queue);
      queue := queue[1..];
      if url in visited {
        ProgressSkip(web, cfg, requested0, requested, visits, handled, pending, queued);
        handled := handled + [entry];
        continue;
      }
      ghost var rows := store.rows;
      ExpansionStep(web, cfg, visited + {url}, entry, queue, queued, queue0);
      ProgressVisit(web, cfg, requested0, requested, visits, handled, pending, queued, visited);
      OriginsVisit(web, cfg, queue0, visits, handled, pending, queued, visited);
      var savedOne;
      savedOne, queue := VisitPage(store, cfg, web, url, depth, visited + {url}, queue, web.clock(|requested| + 1));
      CrawledStep(web, cfg, old(store.rows), requested0, saved0, visited, requested, saved, entry, rows, store.rows);
      visited := visited + {url};
      requested := requested + [url];
      if savedOne {
        saved := saved + 1;
      }
      queued := queued + Expansion(web, cfg, visited, url, depth);
      handled, visits := handled + [entry], visits + [entry];
    }
    LoopReach(web, cfg, queue0, requested0, requested, visits, handled, queue, queued);
  }

  /**
   * `crawl_generic`, which itself returns nothing and only prints the
   * final count. The model returns, as observations of the run, the
   * number of documents saved, how many of them the explicit-PDF phase
   * saved, and the URLs requested, in request order: first the explicit
   * PDF URLs (`pdfRequests` of them, each one once), then the URLs of the
   * entries the breadth-first loop fetched (`visits`, with their depths).
   * Each visit is a start URL at depth 0 or linked from an earlier visit
   * one level up. Each count is the number of requests of its phase that
   * yield a document, and every such document is a row of the table.
   * Unless the budget was met, every start URL was requested, and every
   * link of a page fetched below the depth limit that normalises to a
   * followable URL was requested too.
   */
  method CrawlGeneric(store: DocumentTable, cfg: CrawlerConfig, web: Web)
    returns (pagesSaved: nat, pdfSaved: nat, requested: seq<string>, ghost pdfRequests: nat, ghost visits: seq<Entry>)
    requires store.Valid()
    modifies store
    ensures store.Valid()
    ensures Distinct(requested)
    ensures pdfRequests <= |requested|
    ensures forall u :: u in cfg.extraPdfUrls ==> u in requested[..pdfRequests]
    ensures forall k :: 0 <= k < pdfRequests ==> requested[k] in cfg.extraPdfUrls
    ensures |visits| == |requested| - pdfRequests
    ensures forall k :: 0 <= k < |visits| ==> visits[k].0 == requested[pdfRequests + k] && WellQueued(web, cfg, visits[k])
    ensures forall k :: 0 <= k < |visits| ==> SeedOrLinked(web, cfg, visits, k)
    ensures pdfSaved <= pagesSaved
    ensures Recorded(web, cfg, true, requested[..pdfRequests], pdfSaved, store.rows)
    ensures Recorded(web, cfg, false, requested[pdfRequests..], pagesSaved - pdfSaved, store.rows)
    ensures pagesSaved < cfg.maxPages ==> forall u :: u in cfg.startUrls ==> u in requested
    ensures pagesSaved < cfg.maxPages ==>
      forall k :: 0 <= k < |visits| && visits[k].1 < cfg.maxDepth ==> LinksFollowed(web, cfg, visits[k], requested, [])
    ensures pagesSaved <= |requested|
    ensures pdfSaved <= |cfg.extraPdfUrls|
    ensures pagesSaved <= Max(cfg.maxPages, pdfSaved)
    ensures OnlyTouches(old(store.rows), store.rows, cfg.jurisdiction, requested)
  {
    var visited, pdfRequested;
    visited, pdfRequested, pdfSaved := FetchExplicitPdfs(store, cfg, web);
    ghost var mid := store.rows;
    visited, requested, pagesSaved, visits := CrawlFromSeeds(store, cfg, web, visited, pdfRequested, pdfSaved);
    pdfRequests := |pdfRequested|;
    CrawlGenericJoin(web, cfg, old(store.rows), mid, store.rows, pdfRequested, requested, pdfSaved);
  }

  /**
   * Queueing the start URLs at depth 0 and running the breadth-first loop
   * from them: every visit is a start URL at depth 0 or linked from an
   * earlier visit, and unless the budget was met every start URL was
   * requested and the links of pages fetched below the depth limit were
   * taken care of.
   */
  method CrawlFromSeeds(
    store: DocumentTable, cfg: CrawlerConfig, web: Web,
    visited0: set<string>, requested0: seq<string>, saved0: nat)
    returns (visited: set<string>, requested: seq<string>, saved: nat, ghost visits: seq<Entry>)
    requires store.Valid()
    requires Distinct(requested0) && (forall u :: u in visited0 <==> u in requested0)
    modifies store
    ensures store.Valid()
    ensures RequestLog(web, cfg, requested0, visited, requested)
    ensures saved0 <= saved <= saved0 + (|requested| - |requested0|)
    ensures saved <= Max(cfg.maxPages, saved0)
    ensures Recorded(web, cfg, false, requested[|requested0|..], saved - saved0, store.rows)
    ensures OnlyTouches(old(store.rows), store.rows, cfg.jurisdiction, requested[|requested0|..])
    ensures |visits| == |requested| - |requested0|
    ensures forall k :: 0 <= k < |visits| ==> visits[k].0 == requested[|requested0| + k] && WellQueued(web, cfg, visits[k])
    ensures forall k :: 0 <= k < |visits| ==> SeedOrLinked(web, cfg, visits, k)
    ensures saved < cfg.maxPages ==> forall u :: u in cfg.startUrls ==> u in requested
    ensures saved < cfg.maxPages ==> Frontier(web, cfg, visits, requested, [])
  {
    var queue := SeedQueue(cfg);
    visited, requested, saved, visits := CrawlBreadthFirst(store, cfg, web, queue, visited0, requested0, saved0);
    SeedDescent(web, cfg, queue, visits);
    if saved < cfg.maxPages {
      SeedsRequested(cfg, queue, requested);
    }
  }

  /**
   * The explicit-PDF phase's requests open the final request log, and
   * their rows survive the breadth-first loop, which requests none of
   * their URLs again.
   */
  lemma CrawlGenericJoin(web: Web, cfg: CrawlerConfig, orig: Rows, mid: Rows, rows: Rows,
                         pdfRequested: seq<string>, requested: seq<string>, pdfSaved: nat)
    requires Distinct(requested) && |pdfRequested| <= |requested| && requested[..|pdfRequested|] == pdfRequested
    requires forall k :: 0 <= k < |pdfRequested| ==> pdfRequested[k] in cfg.extraPdfUrls
    requires forall u :: u in cfg.extraPdfUrls ==> u in pdfRequested
    requires Recorded(web, cfg, true, pdfRequested, pdfSaved, mid)
    requires OnlyTouches(orig, mid, cfg.jurisdiction, pdfRequested)
    requires OnlyTouches(mid, rows, cfg.jurisdiction, requested[|pdfRequested|..])
    ensures forall k :: 0 <= k < |pdfRequested| ==> requested[k] in cfg.extraPdfUrls
    ensures forall u :: u in cfg.extraPdfUrls ==> u in requested[..|pdfRequested|]
    ensures Recorded(web, cfg, true, requested[..|pdfRequested|], pdfSaved, rows)
    ensures OnlyTouches(orig, rows, cfg.jurisdiction, requested)
  {
    assert forall k :: 0 <= k < |pdfRequested| ==> requested[k] == pdfRequested[k];
    DistinctSplit(requested, |pdfRequested|);
    RecordedKept(web, cfg, true, pdfRequested, pdfSaved, mid, rows, requested[|pdfRequested|..]);
    assert requested == pdfRequested + requested[|pdfRequested|..];
  }
}
