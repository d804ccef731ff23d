/**
 * The simple per-region scraper (scrapper.py): each region has its own
 * `regulations` table; `save_record` inserts a row unless one with the
 * same `(title, source_url)` exists, `extract_text_from_elements` builds a
 * bounded text out of the elements of a page, `scrape_simple_pages` picks
 * a title and a content for each page, and `scrape_india` turns the rows
 * of the AIS table into records.
 *
 * BeautifulSoup enters as data already parsed: an element is the list of
 * its `stripped_strings`, a page is what `select_one`, `soup.title.string`,
 * `find(["h1", "h2"])` and `find_all("p")` return. Fetching, `urljoin` and
 * the UTC clock are function parameters.
 */
module Scraper {
  import opened Wrappers
  import opened PyStr

  /** The keys of `DB_PATHS`: one database per region. */
  const Regions: set<string> := {"EU", "USA", "India", "China", "Japan"}

  /** The default `max_chars` of `extract_text_from_elements`. */
  const DefaultMaxChars: nat := 4000

  // ---------------------------------------------------------------
  // elements and extract_text_from_elements
  // ---------------------------------------------------------------

  /** A parsed element, seen through its `stripped_strings`. */
  datatype Element = Element(strippedStrings: seq<string>)

  /** `el.get_text(strip=True)` */
  function GetTextStripped(el: Element): string {
    Join("", el.strippedStrings)
  }

  /** `" ".join(el.stripped_strings)` */
  function ElementText(el: Element): string {
    Join(" ", el.strippedStrings)
  }

  function Texts(elements: seq<Element>): (ts: seq<string>)
    ensures |ts| == |elements|
    ensures forall i :: 0 <= i < |elements| ==> ts[i] == ElementText(elements[i])
  {
    seq(|elements|, i requires 0 <= i < |elements| => ElementText(elements[i]))
  }

  /**
   * The pieces the loop keeps from `ts` when `room` characters are left:
   * empty texts are skipped, a text that does not fit is cut to `room`
   * characters and ends the loop, and a text that fills the room exactly
   * ends it too.
   */
  function KeptPieces(ts: seq<string>, room: nat): seq<string>
    decreases |ts|
  {
    if ts == [] then []
    else if ts[0] == "" then KeptPieces(ts[1..], room)
    else if |ts[0]| > room then [ts[0][..room]]
    else if |ts[0]| == room then [ts[0]]
    else [ts[0]] + KeptPieces(ts[1..], room - |ts[0]|)
  }

  /** The non-empty texts, in order: what would be kept with unlimited room. */
  function NonEmptyTexts(ts: seq<string>): seq<string> {
    if ts == [] then []
    else (if ts[0] != "" then [ts[0]] else []) + NonEmptyTexts(ts[1..])
  }

  /** The number of characters in the pieces, separators excluded. */
  function TotalLen(ps: seq<string>): nat {
    if ps == [] then 0 else |ps[0]| + TotalLen(ps[1..])
  }

  /** The text `extract_text_from_elements(elements, max_chars)` returns. */
  function ExtractedText(elements: seq<Element>, maxChars: nat): string {
    Join("\n\n", KeptPieces(Texts(elements), maxChars))
  }

  /** `extract_text_from_elements`: bounded concatenation of the elements' texts. */
  method ExtractTextFromElements(elements: seq<Element>, maxChars: int) returns (text: string)
    requires maxChars >= 0
    ensures text == ExtractedText(elements, maxChars)
    ensures elements == [] ==> text == ""
  {
    if elements == [] {
      return "";
    }
    ghost var ts := Texts(elements);
    ghost var goal := KeptPieces(ts, maxChars);
    var texts: seq<string> := [];
    var total := 0;
    var i := 0;
    while i < |elements|
      invariant 0 <= i <= |elements|
      invariant 0 <= total <= maxChars
      invariant texts + KeptPieces(ts[i..], maxChars - total) == goal
      decreases |elements| - i
    {
      var t := Join(" ", elements[i].strippedStrings);
      ExtractStep(ts, i, maxChars - total, texts, goal);
      if t == "" {
        i := i + 1;
        continue;
      }
      if total + |t| > maxChars {
        t := t[..maxChars - total];
        texts := texts + [t];
        break;
      }
      texts := texts + [t];
      total := total + |t|;
      if total >= maxChars {
        break;
      }
      i := i + 1;
    }
    assert i == |elements| ==> ts[i..] == [] && texts + [] == texts;
    text := Join("\n\n", texts);
  }

  /**
   * One step of the loop above: how the text at `i` moves the pieces kept
   * so far (`kept`, with `room` characters left) towards the final ones.
   */
  lemma ExtractStep(ts: seq<string>, i: nat, room: nat, kept: seq<string>, goal: seq<string>)
    requires i < |ts|
    requires kept + KeptPieces(ts[i..], room) == goal
    ensures ts[i] == "" ==> kept + KeptPieces(ts[i + 1..], room) == goal
    ensures ts[i] != "" && |ts[i]| > room ==> kept + [ts[i][..room]] == goal
    ensures ts[i] != "" && |ts[i]| == room ==> kept + [ts[i]] == goal
    ensures ts[i] != "" && |ts[i]| < room ==>
      (kept + [ts[i]]) + KeptPieces(ts[i + 1..], room - |ts[i]|) == goal
  {
    assert ts[i..][0] == ts[i] && ts[i..][1..] == ts[i + 1..];
    if ts[i] != "" && |ts[i]| < room {
      var rest := KeptPieces(ts[i + 1..], room - |ts[i]|);
      assert kept + ([ts[i]] + rest) == (kept + [ts[i]]) + rest;
    }
  }

  /** The kept pieces never hold more than `room` characters in all. */
  lemma {:induction false} KeptPiecesBound(ts: seq<string>, room: nat)
    ensures TotalLen(KeptPieces(ts, room)) <= room
    decreases |ts|
  {
    if ts != [] {
      if ts[0] == "" {
        KeptPiecesBound(ts[1..], room);
      } else if |ts[0]| > room {
        assert TotalLen(KeptPieces(ts, room)) == room;
      } else if |ts[0]| < room {
        KeptPiecesBound(ts[1..], room - |ts[0]|);
        var ps := KeptPieces(ts, room);
        assert ps[1..] == KeptPieces(ts[1..], room - |ts[0]|);
      }
    }
  }

  /**
   * When the kept pieces hold fewer than `room` characters nothing was cut:
   * they are exactly the non-empty texts.
   */
  lemma {:induction false} KeptPiecesShortMeansAll(ts: seq<string>, room: nat)
    requires TotalLen(KeptPieces(ts, room)) < room
    ensures KeptPieces(ts, room) == NonEmptyTexts(ts)
    decreases |ts|
  {
    if ts != [] {
      if ts[0] == "" {
        KeptPiecesShortMeansAll(ts[1..], room);
      } else {
        assert |ts[0]| < room;
        var ps := KeptPieces(ts, room);
        assert ps[1..] == KeptPieces(ts[1..], room - |ts[0]|);
        KeptPiecesShortMeansAll(ts[1..], room - |ts[0]|);
      }
    }
  }

  /** When all the non-empty texts fit in `room`, all of them are kept, unchanged. */
  lemma {:induction false} KeptPiecesAllFit(ts: seq<string>, room: nat)
    requires TotalLen(NonEmptyTexts(ts)) <= room
    ensures KeptPieces(ts, room) == NonEmptyTexts(ts)
    decreases |ts|
  {
    if ts != [] {
      if ts[0] == "" {
        assert NonEmptyTexts(ts) == NonEmptyTexts(ts[1..]);
        KeptPiecesAllFit(ts[1..], room);
      } else {
        var ne := NonEmptyTexts(ts);
        assert ne[0] == ts[0] && ne[1..] == NonEmptyTexts(ts[1..]);
        if |ts[0]| == room {
          NonEmptyTextsEmpty(ts[1..]);
        } else {
          KeptPiecesAllFit(ts[1..], room - |ts[0]|);
        }
      }
    }
  }

  /** Non-empty texts holding no characters at all: there are none. */
  lemma {:induction false} NonEmptyTextsEmpty(ts: seq<string>)
    ensures TotalLen(NonEmptyTexts(ts)) == 0 ==> NonEmptyTexts(ts) == []
    decreases |ts|
  {
    if ts != [] {
      if ts[0] != "" {
        assert NonEmptyTexts(ts)[0] == ts[0];
      } else {
        assert NonEmptyTexts(ts) == NonEmptyTexts(ts[1..]);
        NonEmptyTextsEmpty(ts[1..]);
      }
    }
  }

  /**
   * `ps` follows `ne` in order: each piece but the last is its text
   * unchanged, and the last is a prefix of its text.
   */
  predicate PrefixPieces(ps: seq<string>, ne: seq<string>) {
    && |ps| <= |ne|
    && (forall k :: 0 <= k < |ps| - 1 ==> ps[k] == ne[k])
    && (ps != [] ==> StartsWith(ne[|ps| - 1], ps[|ps| - 1]))
  }

  /**
   * The kept pieces follow the non-empty texts in order, only the last one
   * possibly cut: nothing after the first text that overflows is included.
   */
  lemma {:induction false} KeptPiecesArePrefix(ts: seq<string>, room: nat)
    ensures PrefixPieces(KeptPieces(ts, room), NonEmptyTexts(ts))
    decreases |ts|
  {
    if ts != [] {
      if ts[0] == "" {
        assert NonEmptyTexts(ts) == NonEmptyTexts(ts[1..]);
        KeptPiecesArePrefix(ts[1..], room);
      } else if |ts[0]| < room {
        KeptPiecesArePrefix(ts[1..], room - |ts[0]|);
        assert KeptPieces(ts, room) == [ts[0]] + KeptPieces(ts[1..], room - |ts[0]|);
        assert NonEmptyTexts(ts) == [ts[0]] + NonEmptyTexts(ts[1..]);
        ConsPrefix(ts[0], KeptPieces(ts[1..], room - |ts[0]|), NonEmptyTexts(ts[1..]));
      } else {
        assert NonEmptyTexts(ts)[0] == ts[0];
      }
    }
  }

  /** Putting the same text in front of both keeps the prefix relation. */
  lemma ConsPrefix(t: string, ps: seq<string>, ne: seq<string>)
    requires PrefixPieces(ps, ne)
    ensures PrefixPieces([t] + ps, [t] + ne)
  {
    var ps', ne' := [t] + ps, [t] + ne;
    forall k | 0 <= k < |ps'| - 1
      ensures ps'[k] == ne'[k]
    {
      if k > 0 {
        assert ps'[k] == ps[k - 1];
      }
    }
    if ps != [] {
      assert ps'[|ps'| - 1] == ps[|ps| - 1] && ne'[|ps'| - 1] == ne[|ps| - 1];
    }
  }

  // ---------------------------------------------------------------
  // the regulations tables and save_record
  // ---------------------------------------------------------------

  /** One row of a `regulations` table. `retrievedAt` is the UTC timestamp of the insert. */
  datatype Regulation = Regulation(
    id: nat,
    title: string,
    sourceUrl: string,
    pdfUrl: Option<string>,
    content: Option<string>,
    retrievedAt: string)

  /** The arguments of one `save_record` call, apart from the region. */
  datatype Record = Record(title: string, sourceUrl: string, pdfUrl: Option<string>, content: Option<string>)

  /** The `SELECT id ... WHERE title = ? AND source_url = ?` test. */
  predicate HasRecord(rows: seq<Regulation>, title: string, sourceUrl: string) {
    exists k :: 0 <= k < |rows| && rows[k].title == title && rows[k].sourceUrl == sourceUrl
  }

  /**
   * `save_record` on one table: nothing changes when a row with the same
   * title and source URL exists; otherwise one row is appended, with the
   * next AUTOINCREMENT id (rows are never deleted, so it is the row count
   * plus one).
   */
  function InsertIfAbsent(rows: seq<Regulation>, rec: Record, now: string): (r: seq<Regulation>)
    ensures HasRecord(r, rec.title, rec.sourceUrl)
    ensures HasRecord(rows, rec.title, rec.sourceUrl) ==> r == rows
    ensures !HasRecord(rows, rec.title, rec.sourceUrl) ==>
      r == rows + [Regulation(|rows| + 1, rec.title, rec.sourceUrl, rec.pdfUrl, rec.content, now)]
  {
    if HasRecord(rows, rec.title, rec.sourceUrl) then rows
    else
      var r := rows + [Regulation(|rows| + 1, rec.title, rec.sourceUrl, rec.pdfUrl, rec.content, now)];
      assert r[|rows|].title == rec.title && r[|rows|].sourceUrl == rec.sourceUrl;
      r
  }

  /** Ids are 1, 2, 3, ... in insertion order, and no two rows share a title and source URL. */
  ghost predicate WellFormed(rows: seq<Regulation>) {
    && (forall k :: 0 <= k < |rows| ==> rows[k].id == k + 1)
    && (forall j, k :: 0 <= j < k < |rows| ==>
          rows[j].title != rows[k].title || rows[j].sourceUrl != rows[k].sourceUrl)
  }

  lemma InsertKeepsWellFormed(rows: seq<Regulation>, rec: Record, now: string)
    requires WellFormed(rows)
    ensures WellFormed(InsertIfAbsent(rows, rec, now))
  {
    if !HasRecord(rows, rec.title, rec.sourceUrl) {
      var r := InsertIfAbsent(rows, rec, now);
      forall j, k | 0 <= j < k < |r|
        ensures r[j].title != r[k].title || r[j].sourceUrl != r[k].sourceUrl
      {
        if k == |rows| {
          assert r[j] == rows[j];
        }
      }
    }
  }

  /**
   * Saving the same title and source URL again, whatever the other values,
   * changes nothing: existing content is never updated.
   */
  lemma SaveAgainChangesNothing(rows: seq<Regulation>, rec: Record, now: string, again: Record, later: string)
    requires again.title == rec.title && again.sourceUrl == rec.sourceUrl
    ensures InsertIfAbsent(InsertIfAbsent(rows, rec, now), again, later) == InsertIfAbsent(rows, rec, now)
  {
  }

  /** The saves of `recs` in order, the k-th stamped with `clock(k)`. */
  function InsertAll(rows: seq<Regulation>, recs: seq<Record>, clock: nat -> string): seq<Regulation> {
    if recs == [] then rows
    else InsertIfAbsent(InsertAll(rows, recs[..|recs| - 1], clock), recs[|recs| - 1], clock(|recs| - 1))
  }

  /**
   * A run of saves only appends: the old rows stay as they were, at most
   * one row is added per record, every record's key is present afterwards,
   * and the table stays well formed.
   */
  lemma {:induction false} InsertAllAppends(rows: seq<Regulation>, recs: seq<Record>, clock: nat -> string)
    requires WellFormed(rows)
    ensures var r := InsertAll(rows, recs, clock);
      && |rows| <= |r| <= |rows| + |recs|
      && r[..|rows|] == rows
      && WellFormed(r)
      && forall k :: 0 <= k < |recs| ==> HasRecord(r, recs[k].title, recs[k].sourceUrl)
  {
    if recs != [] {
      var init := recs[..|recs| - 1];
      var mid := InsertAll(rows, init, clock);
      InsertAllAppends(rows, init, clock);
      var last := recs[|recs| - 1];
      InsertKeepsWellFormed(mid, last, clock(|recs| - 1));
      var r := InsertAll(rows, recs, clock);
      assert r[..|mid|] == mid;
      assert r[..|rows|] == mid[..|rows|];
      forall k | 0 <= k < |recs|
        ensures HasRecord(r, recs[k].title, recs[k].sourceUrl)
      {
        if k < |init| {
          assert init[k] == recs[k];
          var j :| 0 <= j < |mid| && mid[j].title == recs[k].title && mid[j].sourceUrl == recs[k].sourceUrl;
          assert r[j] == mid[j];
        }
      }
    }
  }

  /** One more save, stamped with the clock at its position. */
  lemma InsertAllSnoc(rows: seq<Regulation>, recs: seq<Record>, rec: Record, clock: nat -> string)
    ensures InsertAll(rows, recs + [rec], clock) == InsertIfAbsent(InsertAll(rows, recs, clock), rec, clock(|recs|))
  {
    assert (recs + [rec])[..|recs|] == recs;
  }

  // ---------------------------------------------------------------
  // the pages scrape_simple_pages and scrape_india read
  // ---------------------------------------------------------------

  /** A parsed HTML page, through the queries `scrape_simple_pages` makes of it. */
  datatype Soup = Soup(
    selectOne: string -> Option<Element>,
    titleString: Option<string>,
    firstHeading: Option<Element>,
    paragraphs: seq<Element>)

  /** Python truthiness of an optional selector string. */
  predicate Given(selector: Option<string>) {
    selector.Some? && selector.value != ""
  }

  /** The stripped text of the element the title selector finds, or "" when there is none. */
  function SelectorTitle(soup: Soup, titleSelector: Option<string>): string {
    if Given(titleSelector) && soup.selectOne(titleSelector.value).Some?
    then GetTextStripped(soup.selectOne(titleSelector.value).value)
    else ""
  }

  /** The title chosen for a page: selector text, then `<title>`, then the first h1/h2, then the URL. */
  function ChooseTitle(soup: Soup, titleSelector: Option<string>, url: string): string {
    var fromSelector := SelectorTitle(soup, titleSelector);
    if fromSelector != "" then fromSelector
    else if soup.titleString.Some? && soup.titleString.value != "" then Strip(soup.titleString.value)
    else if soup.firstHeading.Some? then GetTextStripped(soup.firstHeading.value)
    else url
  }

  /**
   * The fallback order, step by step: a non-empty selector text wins;
   * failing that, a non-empty `<title>` string, stripped; failing that, the
   * first h1/h2's stripped text; and only when the page has none of these,
   * the URL. An empty title can therefore only come from a `<title>`
   * string or a heading that is all whitespace or empty, or from an empty
   * URL, and a title that is not the URL is never empty unless one of
   * those was blank.
   */
  lemma ChooseTitleFallback(soup: Soup, titleSelector: Option<string>, url: string)
    ensures var t := ChooseTitle(soup, titleSelector, url);
      var fromSelector := SelectorTitle(soup, titleSelector);
      var hasTitle := soup.titleString.Some? && soup.titleString.value != "";
      && (fromSelector != "" ==> t == fromSelector)
      && (fromSelector == "" && hasTitle ==> t == Strip(soup.titleString.value))
      && (fromSelector == "" && !hasTitle && soup.firstHeading.Some? ==> t == GetTextStripped(soup.firstHeading.value))
      && (fromSelector == "" && !hasTitle && soup.firstHeading.None? ==> t == url)
      && (t == "" ==>
            || url == ""
            || (soup.titleString.Some? && IsBlank(soup.titleString.value))
            || (soup.firstHeading.Some? && GetTextStripped(soup.firstHeading.value) == ""))
  {
    if soup.titleString.Some? && soup.titleString.value != "" {
      StripEmptyIffBlank(soup.titleString.value);
    }
  }

  /** The content `scrape_simple_pages` extracts from a page ("" when the selector finds nothing). */
  function PageContent(soup: Soup, contentSelector: Option<string>): string {
    if Given(contentSelector) then
      match soup.selectOne(contentSelector.value)
      case Some(container) => ExtractedText([container], DefaultMaxChars)
      case None => ""
    else ExtractedText(soup.paragraphs, DefaultMaxChars)
  }

  /** The record saved for one fetched page: empty content is stored as NULL. */
  function PageRecord(soup: Soup, url: string, titleSelector: Option<string>, contentSelector: Option<string>): Record {
    var content := PageContent(soup, contentSelector);
    Record(ChooseTitle(soup, titleSelector, url), url, None, if content == "" then None else Some(content))
  }

  /** A page's record never stores an empty content: it is NULL or non-empty. */
  lemma PageRecordContent(soup: Soup, url: string, titleSelector: Option<string>, contentSelector: Option<string>)
    ensures var rec := PageRecord(soup, url, titleSelector, contentSelector);
      && rec.sourceUrl == url && rec.pdfUrl == None
      && (rec.content == None <==> PageContent(soup, contentSelector) == "")
      && (rec.content.Some? ==> rec.content.value != "")
  {
  }

  /** `fetch_html` (None on any error) and the UTC clock read at the n-th save. */
  datatype SimpleWeb = SimpleWeb(fetch: string -> Option<Soup>, clock: nat -> string)

  /** The records `scrape_simple_pages` saves, in order: one per page that could be fetched. */
  function SimpleRecords(web: SimpleWeb, urls: seq<string>, titleSelector: Option<string>, contentSelector: Option<string>): seq<Record> {
    if urls == [] then []
    else
      var init := SimpleRecords(web, urls[..|urls| - 1], titleSelector, contentSelector);
      var url := urls[|urls| - 1];
      match web.fetch(url)
      case None => init
      case Some(soup) => init + [PageRecord(soup, url, titleSelector, contentSelector)]
  }

  /** A parsed `<a>` element: its `href` attribute, when it has one. */
  datatype Link = Link(href: Option<string>)

  /** One `<tr>`: its `<td>` cells and its first `<a>`, when there is one. */
  datatype TableRow = TableRow(cells: seq<Element>, link: Option<Link>)

  /** The AIS page: the `<tr>` rows of its first `<table>`, when it has one. */
  datatype AisPage = AisPage(table: Option<seq<TableRow>>)

  /** The AIS list page. */
  const AisUrl: string := "https://morth.nic.in/print/ais"

  /** `fetch_html` on the AIS page, `urljoin`, and the UTC clock read at the n-th save. */
  datatype IndiaWeb = IndiaWeb(fetch: string -> Option<AisPage>, urljoin: (string, string) -> string, clock: nat -> string)

  /** `pdf_url`: the joined link target when the row has a link with a non-empty `href`. */
  function RowPdfUrl(web: IndiaWeb, row: TableRow): Option<string> {
    if row.link.Some? && row.link.value.href.Some? && row.link.value.href.value != "" then
      Some(web.urljoin(AisUrl, row.link.value.href.value))
    else None
  }

  /** The record of a row with at least three cells: S. No., AIS code, subject. */
  function AisRecord(web: IndiaWeb, row: TableRow): Record
    requires |row.cells| >= 3
  {
    var sNo := GetTextStripped(row.cells[0]);
    var aisCode := GetTextStripped(row.cells[1]);
    var subject := GetTextStripped(row.cells[2]);
    Record(
      aisCode + " - " + subject + " (AIS India)",
      AisUrl,
      RowPdfUrl(web, row),
      Some("S. No.: " + sNo + "\nAIS Code: " + aisCode + "\nSubject: " + subject))
  }

  /** The records of the rows after the header, skipping rows with fewer than three cells. */
  function RowRecords(web: IndiaWeb, rows: seq<TableRow>): seq<Record> {
    if rows == [] then []
    else
      var last := rows[|rows| - 1];
      RowRecords(web, rows[..|rows| - 1]) + if |last.cells| >= 3 then [AisRecord(web, last)] else []
  }

  /** The records `scrape_india` saves, in order. */
  function IndiaRecords(web: IndiaWeb): seq<Record> {
    match web.fetch(AisUrl)
    case None => []
    case Some(page) =>
      match page.table
      case None => []
      case Some(rows) => if rows == [] then [] else RowRecords(web, rows[1..])
  }

  /** Rows with at least three cells. */
  function WideRows(rows: seq<TableRow>): nat {
    if rows == [] then 0
    else WideRows(rows[..|rows| - 1]) + if |rows[|rows| - 1].cells| >= 3 then 1 else 0
  }

  /**
   * Every AIS record points at the list page, is titled
   * "{code} - {subject} (AIS India)" with its three labelled fields as
   * content, and there is one per row with at least three cells.
   */
  lemma {:induction false} RowRecordsShape(web: IndiaWeb, rows: seq<TableRow>)
    ensures |RowRecords(web, rows)| == WideRows(rows) <= |rows|
    ensures forall k :: 0 <= k < |RowRecords(web, rows)| ==>
      var rec := RowRecords(web, rows)[k];
      && rec.sourceUrl == AisUrl
      && EndsWith(rec.title, " (AIS India)")
      && rec.content.Some? && StartsWith(rec.content.value, "S. No.: ")
  {
    if rows != [] {
      var init := rows[..|rows| - 1];
      RowRecordsShape(web, init);
      var last := rows[|rows| - 1];
      if |last.cells| >= 3 {
        var rec := AisRecord(web, last);
        var recs := RowRecords(web, rows);
        assert recs == RowRecords(web, init) + [rec];
        assert rec.title[|rec.title| - 12..] == " (AIS India)";
        assert rec.content.value[..8] == "S. No.: ";
        forall k | 0 <= k < |recs|
          ensures var r := recs[k];
            && r.sourceUrl == AisUrl && EndsWith(r.title, " (AIS India)")
            && r.content.Some? && StartsWith(r.content.value, "S. No.: ")
        {
          if k < |recs| - 1 {
            assert recs[k] == RowRecords(web, init)[k];
          }
        }
      }
    }
  }

  /**
   * The record of a row: titled "{code} - {subject} (AIS India)", pointing
   * at the list page, with the three labelled fields as lines of its content.
   */
  lemma AisRecordFields(web: IndiaWeb, row: TableRow)
    requires |row.cells| >= 3
    ensures var rec := AisRecord(web, row);
      var sNo, code, subject := GetTextStripped(row.cells[0]), GetTextStripped(row.cells[1]), GetTextStripped(row.cells[2]);
      && rec.title == code + " - " + subject + " (AIS India)"
      && rec.sourceUrl == AisUrl
      && rec.content == Some(Join("\n", ["S. No.: " + sNo, "AIS Code: " + code, "Subject: " + subject]))
  {
    var sNo, code, subject := GetTextStripped(row.cells[0]), GetTextStripped(row.cells[1]), GetTextStripped(row.cells[2]);
    var lines := ["S. No.: " + sNo, "AIS Code: " + code, "Subject: " + subject];
    assert Join("\n", lines[2..]) == lines[2];
    assert Join("\n", lines[1..]) == lines[1] + "\n" + lines[2];
    assert "\n" + "AIS Code: " == "\nAIS Code: " && "\n" + "Subject: " == "\nSubject: ";
    assert Join("\n", lines) == "S. No.: " + sNo + "\nAIS Code: " + code + "\nSubject: " + subject;
  }

  /** The header row never yields a record, whatever it holds. */
  lemma HeaderRowIgnored(web: IndiaWeb, header: TableRow, other: TableRow, rows: seq<TableRow>)
    ensures RowRecords(web, ([header] + rows)[1..]) == RowRecords(web, ([other] + rows)[1..])
  {
    assert ([header] + rows)[1..] == rows == ([other] + rows)[1..];
  }

  /** A record gets a PDF URL exactly when its row's link has a non-empty `href`. */
  lemma PdfUrlIffHref(web: IndiaWeb, row: TableRow)
    requires |row.cells| >= 3
    ensures AisRecord(web, row).pdfUrl.Some? <==>
      exists href :: row.link == Some(Link(Some(href))) && href != ""
  {
    if row.link.Some? && row.link.value.href.Some? {
      var href := row.link.value.href.value;
      assert row.link == Some(Link(Some(href)));
    }
  }

  // ---------------------------------------------------------------
  // the per-region databases
  // ---------------------------------------------------------------

  /** The `regulations` tables of the region databases. */
  class RegulationDatabases {
    var tables: map<string, seq<Regulation>>

    ghost predicate Valid()
      reads this
    {
      tables.Keys == Regions && forall r :: r in tables ==> WellFormed(tables[r])
    }

    /** `init_db` on every region's database: empty tables. */
    constructor ()
      ensures Valid()
      ensures forall r :: r in Regions ==> tables[r] == []
    {
      tables := map r | r in Regions :: [];
    }

    /** Replacing a region's table by a well-formed one keeps every table well-formed. */
    static lemma TableUpdateValid(tables: map<string, seq<Regulation>>, region: string, rows: seq<Regulation>)
      requires tables.Keys == Regions && forall r :: r in tables ==> WellFormed(tables[r])
      requires region in Regions && WellFormed(rows)
      ensures var t := tables[region := rows];
        t.Keys == Regions && forall r :: r in t ==> WellFormed(t[r])
    {}

    /**
     * `save_record`: an unknown region is a `KeyError` raised before any
     * write; otherwise the row is inserted unless its key is present.
     */
    method SaveRecord(region: string, title: string, sourceUrl: string, pdfUrl: Option<string>,
                      content: Option<string>, now: string) returns (r: Outcome<string>)
      requires Valid()
      modifies this
      ensures Valid()
      ensures region !in Regions ==> r == Fail("KeyError") && tables == old(tables)
      ensures region in Regions ==> (r == Pass &&
        tables == old(tables)[region := InsertIfAbsent(old(tables)[region], Record(title, sourceUrl, pdfUrl, content), now)])
    {
      if region !in tables {
        return Fail("KeyError");
      }
      var rows := tables[region];
      if HasRecord(rows, title, sourceUrl) {
        assert tables == tables[region := rows];
        return Pass;
      }
      var inserted := rows + [Regulation(|rows| + 1, title, sourceUrl, pdfUrl, content, now)];
      assert inserted == InsertIfAbsent(rows, Record(title, sourceUrl, pdfUrl, content), now);
      InsertKeepsWellFormed(rows, Record(title, sourceUrl, pdfUrl, content), now);
      TableUpdateValid(tables, region, inserted);
      tables := tables[region := inserted];
      return Pass;
    }

    /**
     * `scrape_simple_pages`: saves one record per page that could be
     * fetched. An unknown region fails at the first save, before any write.
     */
    method ScrapeSimplePages(region: string, urls: seq<string>, titleSelector: Option<string>,
                             contentSelector: Option<string>, web: SimpleWeb) returns (r: Outcome<string>)
      requires Valid()
      modifies this
      ensures Valid()
      ensures region in Regions ==> (r == Pass &&
        tables == old(tables)[region := InsertAll(old(tables)[region],
          SimpleRecords(web, urls, titleSelector, contentSelector), web.clock)])
      ensures region !in Regions ==> (tables == old(tables) &&
        (r.Fail? <==> SimpleRecords(web, urls, titleSelector, contentSelector) != []))
    {
      ghost var start := tables;
      var saves := 0;
      for i := 0 to |urls|
        invariant Valid()
        invariant saves == |SimpleRecords(web, urls[..i], titleSelector, contentSelector)|
        invariant tables == PagesSaved(start, region, SimpleRecords(web, urls[..i], titleSelector, contentSelector), web.clock)
        invariant region !in Regions ==> saves == 0
      {
        ghost var before := tables;
        SimpleRecordsStep(web, urls, i, titleSelector, contentSelector);
        var saved;
        r, saved := ScrapeUrl(region, urls[i], titleSelector, contentSelector, web, saves);
        if r.Fail? {
          SimpleRecordsGrow(web, urls, i + 1, titleSelector, contentSelector);
          return;
        }
        if saved {
          saves := saves + 1;
        }
        SimplePagesStep(web, urls, i, titleSelector, contentSelector, region, start, before, tables);
      }
      assert urls[..|urls|] == urls;
      r := Pass;
    }

    /** One iteration of `scrape_simple_pages`: fetch one page and save its record. */
    method ScrapeUrl(region: string, url: string, titleSelector: Option<string>,
                     contentSelector: Option<string>, web: SimpleWeb, saves: nat) returns (r: Outcome<string>, saved: bool)
      requires Valid()
      modifies this
      ensures Valid()
      ensures saved <==> web.fetch(url).Some?
      ensures web.fetch(url).None? ==> r == Pass && tables == old(tables)
      ensures web.fetch(url).Some? && region !in Regions ==> r == Fail("KeyError") && tables == old(tables)
      ensures web.fetch(url).Some? && region in Regions ==> (r == Pass &&
        tables == old(tables)[region := InsertIfAbsent(old(tables)[region],
          PageRecord(web.fetch(url).value, url, titleSelector, contentSelector), web.clock(saves))])
    {
      var fetched := web.fetch(url);
      if fetched.None? {
        return Pass, false;
      }
      var rec := ScrapePage(fetched.value, url, titleSelector, contentSelector);
      r := SaveRecord(region, rec.title, rec.sourceUrl, rec.pdfUrl, rec.content, web.clock(saves));
      assert Record(rec.title, rec.sourceUrl, rec.pdfUrl, rec.content) == rec;
      saved := true;
    }

    /** `scrape_india`: saves one record per AIS table row, after the header, with at least three cells. */
    method ScrapeIndia(web: IndiaWeb)
      requires Valid()
      modifies this
      ensures Valid()
      ensures tables == old(tables)["India" := InsertAll(old(tables)["India"], IndiaRecords(web), web.clock)]
    {
      var fetched := web.fetch(AisUrl);
      if fetched.None? {
        assert old(tables)["India" := old(tables)["India"]] == old(tables);
        return;
      }
      var table := fetched.value.table;
      if table.None? {
        assert old(tables)["India" := old(tables)["India"]] == old(tables);
        return;
      }
      var rows := table.value;
      if rows == [] {
        assert old(tables)["India" := old(tables)["India"]] == old(tables);
        return;
      }
      SaveAisRows(web, rows[1..]);
    }

    /** The loop of `scrape_india` over the rows after the header. */
    method SaveAisRows(web: IndiaWeb, body: seq<TableRow>)
      requires Valid()
      modifies this
      ensures Valid()
      ensures tables == old(tables)["India" := InsertAll(old(tables)["India"], RowRecords(web, body), web.clock)]
    {
      ghost var start := tables;
      var saves := 0;
      for i := 0 to |body|
        invariant Valid()
        invariant saves == |RowRecords(web, body[..i])|
        invariant tables == start["India" := InsertAll(start["India"], RowRecords(web, body[..i]), web.clock)]
      {
        var row := body[i];
        ghost var before := tables;
        if |row.cells| >= 3 {
          var rec := AisRow(web, row);
          var outcome := SaveRecord("India", rec.title, rec.sourceUrl, rec.pdfUrl, rec.content, web.clock(saves));
          assert Record(rec.title, rec.sourceUrl, rec.pdfUrl, rec.content) == rec;
          saves := saves + 1;
        }
        AisRowsStep(web, body, i, start, before, tables);
      }
      assert body[..|body|] == body;
    }
  }

  /** The body of `scrape_simple_pages`' loop for a fetched page: its title and content. */
  method ScrapePage(soup: Soup, url: string, titleSelector: Option<string>, contentSelector: Option<string>)
    returns (rec: Record)
    ensures rec == PageRecord(soup, url, titleSelector, contentSelector)
  {
    var title := ChooseTitle(soup, titleSelector, url);
    var content := "";
    if Given(contentSelector) {
      var container := soup.selectOne(contentSelector.value);
      if container.Some? {
        content := ExtractTextFromElements([container.value], DefaultMaxChars);
      }
    } else {
      content := ExtractTextFromElements(soup.paragraphs, DefaultMaxChars);
    }
    rec := Record(title, url, None, if content == "" then None else Some(content));
  }

  /** The body of `scrape_india`'s loop for a row with at least three cells. */
  method AisRow(web: IndiaWeb, row: TableRow) returns (rec: Record)
    requires |row.cells| >= 3
    ensures rec == AisRecord(web, row)
  {
    var cols := row.cells;
    var sNo := GetTextStripped(cols[0]);
    var aisCode := GetTextStripped(cols[1]);
    var subject := GetTextStripped(cols[2]);
    var pdfUrl: Option<string> := None;
    if row.link.Some? && row.link.value.href.Some? && row.link.value.href.value != "" {
      pdfUrl := Some(web.urljoin(AisUrl, row.link.value.href.value));
    }
    var title := aisCode + " - " + subject + " (AIS India)";
    var content := "S. No.: " + sNo + "\nAIS Code: " + aisCode + "\nSubject: " + subject;
    rec := Record(title, AisUrl, pdfUrl, Some(content));
  }

  /** One step of `scrape_india`'s loop keeps the table equal to the saves of the rows so far. */
  lemma AisRowsStep(web: IndiaWeb, body: seq<TableRow>, i: nat, start: map<string, seq<Regulation>>,
                    before: map<string, seq<Regulation>>, after: map<string, seq<Regulation>>)
    requires i < |body| && "India" in start
    requires before == start["India" := InsertAll(start["India"], RowRecords(web, body[..i]), web.clock)]
    requires |body[i].cells| < 3 ==> after == before
    requires |body[i].cells| >= 3 ==>
      after == before["India" := InsertIfAbsent(before["India"], AisRecord(web, body[i]), web.clock(|RowRecords(web, body[..i])|))]
    ensures after == start["India" := InsertAll(start["India"], RowRecords(web, body[..i + 1]), web.clock)]
    ensures |RowRecords(web, body[..i + 1])| == |RowRecords(web, body[..i])| + if |body[i].cells| >= 3 then 1 else 0
  {
    RowRecordsStep(web, body, i);
    if |body[i].cells| >= 3 {
      InsertAllSnoc(start["India"], RowRecords(web, body[..i]), AisRecord(web, body[i]), web.clock);
    } else {
      assert RowRecords(web, body[..i + 1]) == RowRecords(web, body[..i]);
    }
  }

  lemma RowRecordsStep(web: IndiaWeb, rows: seq<TableRow>, i: nat)
    requires i < |rows|
    ensures RowRecords(web, rows[..i + 1]) ==
      RowRecords(web, rows[..i]) + if |rows[i].cells| >= 3 then [AisRecord(web, rows[i])] else []
  {
    assert rows[..i + 1][..i] == rows[..i];
  }

  lemma SimpleRecordsStep(web: SimpleWeb, urls: seq<string>, i: nat,
                          titleSelector: Option<string>, contentSelector: Option<string>)
    requires i < |urls|
    ensures SimpleRecords(web, urls[..i + 1], titleSelector, contentSelector) ==
      SimpleRecords(web, urls[..i], titleSelector, contentSelector) +
        match web.fetch(urls[i])
        case None => []
        case Some(soup) => [PageRecord(soup, urls[i], titleSelector, contentSelector)]
  {
    assert urls[..i + 1][..i] == urls[..i];
  }

  /** The tables after saving `recs` into `region`; an unknown region has no table to save into. */
  ghost function PagesSaved(start: map<string, seq<Regulation>>, region: string, recs: seq<Record>,
                            clock: nat -> string): map<string, seq<Regulation>>
  {
    if region in start then start[region := InsertAll(start[region], recs, clock)] else start
  }

  /** One step of `scrape_simple_pages`' loop keeps the table equal to the saves of the pages so far. */
  lemma SimplePagesStep(web: SimpleWeb, urls: seq<string>, i: nat,
                        titleSelector: Option<string>, contentSelector: Option<string>, region: string,
                        start: map<string, seq<Regulation>>,
                        before: map<string, seq<Regulation>>, after: map<string, seq<Regulation>>)
    requires i < |urls|
    requires before == PagesSaved(start, region, SimpleRecords(web, urls[..i], titleSelector, contentSelector), web.clock)
    requires web.fetch(urls[i]).None? || region !in start ==> after == before
    requires web.fetch(urls[i]).Some? && region in start ==>
      after == before[region := InsertIfAbsent(before[region],
        PageRecord(web.fetch(urls[i]).value, urls[i], titleSelector, contentSelector),
        web.clock(|SimpleRecords(web, urls[..i], titleSelector, contentSelector)|))]
    ensures after == PagesSaved(start, region, SimpleRecords(web, urls[..i + 1], titleSelector, contentSelector), web.clock)
  {
    SimpleRecordsStep(web, urls, i, titleSelector, contentSelector);
    var prev := SimpleRecords(web, urls[..i], titleSelector, contentSelector);
    if web.fetch(urls[i]).Some? {
      if region in start {
        InsertAllSnoc(start[region], prev, PageRecord(web.fetch(urls[i]).value, urls[i], titleSelector, contentSelector), web.clock);
      }
    } else {
      assert SimpleRecords(web, urls[..i + 1], titleSelector, contentSelector) == prev;
    }
  }

  /** The records of a prefix of the URLs are a prefix of the records of all of them. */
  lemma {:induction false} SimpleRecordsGrow(web: SimpleWeb, urls: seq<string>, n: nat,
                                             titleSelector: Option<string>, contentSelector: Option<string>)
    requires n <= |urls|
    ensures |SimpleRecords(web, urls[..n], titleSelector, contentSelector)|
      <= |SimpleRecords(web, urls, titleSelector, contentSelector)|
    decreases |urls| - n
  {
    if n < |urls| {
      SimpleRecordsGrow(web, urls, n + 1, titleSelector, contentSelector);
      assert urls[..n + 1][..n] == urls[..n];
    } else {
      assert urls[..n] == urls;
    }
  }
}
