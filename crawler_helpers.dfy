/**
 * The helpers of the generic crawler in crawler_scrapper.py: URL
 * classification, the routing of an HTTP response to the HTML or PDF
 * branch, the clean-up applied to parsed HTML and extracted PDF text, and
 * the link filters (`normalize_url`, `should_follow`).
 *
 * The network, BeautifulSoup, pdfminer, `urljoin` and `urlparse` are not
 * modelled; their results enter as values or as function parameters.
 */
module CrawlerHelpers {
  import opened Wrappers
  import opened PyStr

  type Bytes = seq<bv8>

  // ---------------------------------------------------------------
  // is_pdf_url
  // ---------------------------------------------------------------

  /** `is_pdf_url`: the URL ends with ".pdf", whatever the case of its letters. */
  predicate IsPdfUrl(url: string) {
    EndsWith(Lower(url), ".pdf")
  }

  /** The same test, spelled out letter by letter. */
  lemma IsPdfUrlSpec(url: string)
    ensures IsPdfUrl(url) <==>
      && |url| >= 4
      && url[|url| - 4] == '.'
      && url[|url| - 3] in "pP"
      && url[|url| - 2] in "dD"
      && url[|url| - 1] in "fF"
  {
    var n := |url|;
    if n >= 4 {
      var low := Lower(url);
      assert low[n - 4..] == [low[n - 4], low[n - 3], low[n - 2], low[n - 1]];
    }
  }

  // ---------------------------------------------------------------
  // fetch_url
  // ---------------------------------------------------------------

  /** What `requests.get` gave back: an exception, or a response with its status, header and body. */
  datatype HttpOutcome =
    | RequestFailed
    | Response(status: int, contentTypeHeader: Option<string>, text: string, content: Bytes)

  /** `fetch_url`'s tuple `(html_text, pdf_bytes, status_code, content_type)`. */
  datatype Fetched = Fetched(html: Option<string>, pdf: Option<Bytes>, status: Option<int>, contentType: Option<string>)

  predicate IsSuccess(status: int) {
    200 <= status < 300
  }

  /** The content type as `fetch_url` records it: the header lower-cased, "" when absent. */
  function ContentTypeOf(header: Option<string>): string {
    Lower(header.GetOr(""))
  }

  /** A 2xx response is routed to the PDF branch on its content type or on its URL. */
  predicate RoutesToPdf(url: string, header: Option<string>) {
    Contains(ContentTypeOf(header), "application/pdf") || IsPdfUrl(url)
  }

  /**
   * `fetch_url`: no status on a request exception; neither HTML nor PDF on
   * a non-2xx status; otherwise exactly one of the two.
   */
  function FetchUrl(url: string, outcome: HttpOutcome): (f: Fetched)
    ensures f.status.None? <==> outcome.RequestFailed?
    ensures f.status.None? ==> f == Fetched(None, None, None, None)
    ensures outcome.Response? ==>
      f.status == Some(outcome.status) && f.contentType == Some(ContentTypeOf(outcome.contentTypeHeader))
    ensures !(f.html.Some? && f.pdf.Some?)
    ensures f.pdf.Some? <==>
      outcome.Response? && IsSuccess(outcome.status) && RoutesToPdf(url, outcome.contentTypeHeader)
    ensures f.html.Some? <==>
      outcome.Response? && IsSuccess(outcome.status) && !RoutesToPdf(url, outcome.contentTypeHeader)
    ensures f.pdf.Some? ==> f.pdf.value == outcome.content
    ensures f.html.Some? ==> f.html.value == outcome.text
  {
    match outcome
    case RequestFailed => Fetched(None, None, None, None)
    case Response(status, header, text, content) =>
      var ctype := ContentTypeOf(header);
      if !IsSuccess(status) then Fetched(None, None, Some(status), Some(ctype))
      else if Contains(ctype, "application/pdf") || IsPdfUrl(url) then Fetched(None, Some(content), Some(status), Some(ctype))
      else Fetched(Some(text), None, Some(status), Some(ctype))
  }

  // ---------------------------------------------------------------
  // extract_html_text
  // ---------------------------------------------------------------

  /**
   * What BeautifulSoup yields for a page once `script`, `style`, `noscript`,
   * `header`, `footer` and `nav` are removed: the stripped `<title>` text
   * ("" without one), `get_text(separator="\n")`, and the `href` of every
   * `<a href>` in document order.
   */
  datatype HtmlPage = HtmlPage(title: string, text: string, hrefs: seq<string>)

  /** `[ln for ln in (l.strip() for l in lines) if ln]` */
  function KeptLines(lines: seq<string>): seq<string> {
    if lines == [] then []
    else
      var l := Strip(lines[0]);
      if l == "" then KeptLines(lines[1..]) else [l] + KeptLines(lines[1..])
  }

  /** The text clean-up of `extract_html_text`. */
  function CleanText(text: string): string {
    Join("\n", KeptLines(SplitLines(text)))
  }

  /** A kept link: a non-empty `href` that does not start with "javascript:". */
  predicate KeepHref(href: string) {
    href != "" && !StartsWith(href, "javascript:")
  }

  /** The links `extract_html_text` keeps, in document order. */
  function FilterLinks(hrefs: seq<string>): seq<string> {
    if hrefs == [] then []
    else
      var last := hrefs[|hrefs| - 1];
      FilterLinks(hrefs[..|hrefs| - 1]) + (if KeepHref(last) then [last] else [])
  }

  /** `extract_html_text`: the title, the cleaned text and the kept links of a parsed page. */
  method ExtractHtmlText(page: HtmlPage) returns (title: string, text: string, links: seq<string>)
    ensures title == page.title
    ensures text == CleanText(page.text)
    ensures links == FilterLinks(page.hrefs)
  {
    title := page.title;
    text := CleanText(page.text);
    links := [];
    for i := 0 to |page.hrefs|
      invariant links == FilterLinks(page.hrefs[..i])
    {
      var href := page.hrefs[i];
      assert page.hrefs[..i + 1][..i] == page.hrefs[..i];
      if href != "" && !StartsWith(href, "javascript:") {
        links := links + [href];
      }
    }
    assert page.hrefs[..|page.hrefs|] == page.hrefs;
  }

  /** Stripping a string that already has no outer whitespace changes nothing. */
  lemma StripNoOuterSpace(s: string)
    requires s != [] ==> !IsSpace(s[0]) && !IsSpace(s[|s| - 1])
    ensures Strip(s) == s
  {
    if s != [] {
      assert LStripBy(s, IsSpace) == s;
    }
  }

  /** Every kept line is non-empty, already stripped and free of line boundaries. */
  lemma {:induction false} KeptLinesAreClean(lines: seq<string>)
    requires forall k :: 0 <= k < |lines| ==> NoLineBreak(lines[k])
    ensures forall k :: 0 <= k < |KeptLines(lines)| ==>
      var l := KeptLines(lines)[k];
      l != "" && Strip(l) == l && NoLineBreak(l)
  {
    if lines != [] {
      KeptLinesAreClean(lines[1..]);
      var l := Strip(lines[0]);
      StripByKeeps(lines[0], IsSpace);
      StripKeepsNoLineBreak(lines[0]);
      StripNoOuterSpace(l);
    }
  }

  /** A line is kept exactly when it is not blank, and is kept stripped. */
  lemma {:induction false} KeptLinesMembers(lines: seq<string>, x: string)
    ensures x in KeptLines(lines) <==> x != "" && exists k :: 0 <= k < |lines| && Strip(lines[k]) == x
  {
    if lines != [] {
      KeptLinesMembers(lines[1..], x);
      if x != "" && Strip(lines[0]) != x && (exists k :: 0 <= k < |lines| && Strip(lines[k]) == x) {
        var k :| 0 <= k < |lines| && Strip(lines[k]) == x;
        assert Strip(lines[1..][k - 1]) == x;
      }
    }
  }

  /**
   * The cleaned text, split into lines again, is the sequence of the input's
   * non-blank lines, each stripped, in their original order; each of those
   * lines is non-empty and stripped.
   */
  lemma CleanTextLines(text: string)
    ensures SplitLines(CleanText(text)) == KeptLines(SplitLines(text))
    ensures forall k :: 0 <= k < |KeptLines(SplitLines(text))| ==>
      var l := KeptLines(SplitLines(text))[k];
      l != "" && Strip(l) == l
  {
    SplitLinesHaveNoBreaks(text);
    KeptLinesAreClean(SplitLines(text));
    SplitJoinedLines(KeptLines(SplitLines(text)));
  }

  /** A link is kept exactly when it is one of the hrefs, non-empty and not a "javascript:" link. */
  lemma {:induction false} FilterLinksMembers(hrefs: seq<string>, x: string)
    ensures x in FilterLinks(hrefs) <==> x in hrefs && KeepHref(x)
    ensures |FilterLinks(hrefs)| <= |hrefs|
  {
    if hrefs != [] {
      var init := hrefs[..|hrefs| - 1];
      FilterLinksMembers(init, x);
      assert hrefs == init + [hrefs[|hrefs| - 1]];
    }
  }

  // ---------------------------------------------------------------
  // extract_pdf_text
  // ---------------------------------------------------------------

  /** `[ln.rstrip() for ln in lines]` */
  function RStripLines(lines: seq<string>): (r: seq<string>)
    ensures |r| == |lines|
  {
    seq(|lines|, k requires 0 <= k < |lines| => RStrip(lines[k]))
  }

  /**
   * `extract_pdf_text`: pdfminer's text (None when it raises), with every
   * line right-stripped. A failed or empty extraction gives "".
   */
  function ExtractPdfText(pdf: Bytes, pdfMiner: Bytes -> Option<string>): (text: string)
    ensures text != "" ==> pdfMiner(pdf).Some? && pdfMiner(pdf).value != ""
  {
    match pdfMiner(pdf)
    case None => ""
    case Some(txt) => if txt == "" then "" else Join("\n", RStripLines(SplitLines(txt)))
  }

  /**
   * The text `extract_pdf_text` returns has "\n" as its only line
   * boundary, and none of its lines ends in whitespace.
   */
  lemma ExtractPdfTextClean(pdf: Bytes, pdfMiner: Bytes -> Option<string>)
    ensures CleanLineEnds(ExtractPdfText(pdf, pdfMiner))
  {
    match pdfMiner(pdf)
    case None =>
    case Some(txt) =>
      if txt != "" {
        var lines := SplitLines(txt);
        SplitLinesHaveNoBreaks(txt);
        forall k | 0 <= k < |lines|
          ensures CleanLine(RStripLines(lines)[k])
        {
          RStripClean(lines[k]);
        }
        JoinCleanLines(RStripLines(lines));
      }
  }

  // ---------------------------------------------------------------
  // normalize_url, should_follow
  // ---------------------------------------------------------------

  /**
   * `normalize_url`: the stripped href resolved against the page URL, or
   * None for an empty (or all-whitespace) href and for a fragment-only one.
   */
  function NormalizeUrl(baseUrl: string, href: string, urljoin: (string, string) -> string): (r: Option<string>)
    ensures r.None? <==> IsBlank(href) || StartsWith(Strip(href), "#")
    ensures r.Some? ==> r.value == urljoin(baseUrl, Strip(href))
  {
    StripEmptyIffBlank(href);
    var h := Strip(href);
    if h == "" then None
    else if StartsWith(h, "#") then None
    else Some(urljoin(baseUrl, h))
  }

  /** The two parts of `urlparse(url)` that the crawler reads. */
  datatype UrlParts = UrlParts(scheme: string, netloc: string)

  /** The loop of `should_follow`: returns at the first allowed domain that ends the host. */
  function MatchesSomeDomain(host: string, allowedDomains: seq<string>): bool {
    if allowedDomains == [] then false
    else if EndsWith(host, Lower(allowedDomains[0])) then true
    else MatchesSomeDomain(host, allowedDomains[1..])
  }

  /**
   * `should_follow`, given what `urlparse` made of the URL (None when it
   * raised).
   */
  function ShouldFollow(parsed: Option<UrlParts>, allowedDomains: seq<string>): bool {
    match parsed
    case None => false
    case Some(p) => StartsWith(p.scheme, "http") && MatchesSomeDomain(Lower(p.netloc), allowedDomains)
  }

  /**
   * A URL is followed exactly when it parses, its scheme starts with
   * "http", and its lower-cased host ends with some lower-cased allowed
   * domain.
   */
  lemma {:induction false} ShouldFollowSpec(parsed: Option<UrlParts>, allowedDomains: seq<string>)
    ensures ShouldFollow(parsed, allowedDomains) <==>
      && parsed.Some?
      && StartsWith(parsed.value.scheme, "http")
      && exists i :: 0 <= i < |allowedDomains| && EndsWith(Lower(parsed.value.netloc), Lower(allowedDomains[i]))
  {
    if parsed.Some? {
      MatchesSomeDomainSpec(Lower(parsed.value.netloc), allowedDomains);
    }
  }

  lemma {:induction false} MatchesSomeDomainSpec(host: string, allowedDomains: seq<string>)
    ensures MatchesSomeDomain(host, allowedDomains) <==>
      exists i :: 0 <= i < |allowedDomains| && EndsWith(host, Lower(allowedDomains[i]))
  {
    if allowedDomains != [] {
      MatchesSomeDomainSpec(host, allowedDomains[1..]);
      if exists i :: 0 <= i < |allowedDomains| && EndsWith(host, Lower(allowedDomains[i])) {
        var i :| 0 <= i < |allowedDomains| && EndsWith(host, Lower(allowedDomains[i]));
        if i > 0 {
          assert allowedDomains[1..][i - 1] == allowedDomains[i];
        }
      }
    }
  }

  /** The test is a plain suffix test: a host that merely ends with an allowed name is followed. */
  lemma SuffixMatchIgnoresLabelBoundary()
    ensures ShouldFollow(Some(UrlParts("https", "evilnhtsa.gov")), ["nhtsa.gov"])
  {
    assert Lower("evilnhtsa.gov")[4..] == "nhtsa.gov";
  }

  /** A URL whose scheme does not start with "http" is never followed. */
  lemma NonHttpNeverFollowed(parsed: UrlParts, allowedDomains: seq<string>)
    requires !StartsWith(parsed.scheme, "http")
    ensures !ShouldFollow(Some(parsed), allowedDomains)
  {
  }

  // ---------------------------------------------------------------
  // document titles
  // ---------------------------------------------------------------

  /** `url.rsplit("/", 1)[-1]`: what follows the last "/" (the whole URL when there is none). */
  function LastSegment(url: string): (r: string)
    ensures EndsWith(url, r)
    ensures forall k :: 0 <= k < |r| ==> r[k] != '/'
    ensures |r| < |url| ==> url[|url| - |r| - 1] == '/'
  {
    if url == [] || url[|url| - 1] == '/' then []
    else LastSegment(url[..|url| - 1]) + [url[|url| - 1]]
  }
}
