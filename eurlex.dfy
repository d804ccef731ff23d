/**
 * `flatten_eurlex_data` and `ingest_eu_eurlex` (crawler_scrapper.py): the
 * structured view of an EUR-Lex act (title, preamble, articles, final
 * part, annexes) is flattened into one text, and every CELEX id whose
 * flattened text is non-empty is saved into the documents table under
 * jurisdiction "EU".
 *
 * The EUR-Lex parser and `json.dumps` are not modelled: they enter as
 * function parameters. A missing key and a falsy value both read as "".
 */
module EurLex {
  import opened Wrappers
  import opened PyStr
  import opened DocumentStore

  datatype Article = Article(id: string, title: string, text: string)

  datatype Annex = Annex(id: string, title: string, text: string, table: string)

  datatype EurlexData = EurlexData(
    title: string,
    preamble: string,
    articles: seq<Article>,
    finalPart: string,
    annexes: seq<Annex>)

  // ---------------------------------------------------------------
  // the parts of the flattened text
  // ---------------------------------------------------------------

  /** `[x for x in xs if x]` */
  function NonEmpty(xs: seq<string>): seq<string> {
    if xs == [] then []
    else (if xs[0] != "" then [xs[0]] else []) + NonEmpty(xs[1..])
  }

  /** `" ".join([x for x in (art_id, art_title) if x]).strip()` */
  function ArticleHeader(a: Article): string {
    Strip(Join(" ", NonEmpty([a.id, a.title])))
  }

  /** The lines of an article block: its header and its text, each when non-empty. */
  function ArticleBlock(a: Article): seq<string> {
    (if ArticleHeader(a) != "" then [ArticleHeader(a)] else []) + (if a.text != "" then [a.text] else [])
  }

  /** A non-empty block becomes one part, "\n\n" followed by its lines joined by "\n"; an empty one none. */
  function BlockPart(block: seq<string>): seq<string> {
    if block != [] then ["\n\n" + Join("\n", block)] else []
  }

  /** The parts the articles contribute, in order. */
  function ArticleParts(arts: seq<Article>): seq<string> {
    if arts == [] then []
    else ArticleParts(arts[..|arts| - 1]) + BlockPart(ArticleBlock(arts[|arts| - 1]))
  }

  predicate IsSpaceOrDash(c: char) {
    c == ' ' || c == '-'
  }

  /** `f"ANNEX {ann_id} - {ann_title}".strip(" -")` */
  function AnnexHeader(x: Annex): string {
    StripBy("ANNEX " + x.id + " - " + x.title, IsSpaceOrDash)
  }

  function AnnexBlock(x: Annex): seq<string> {
    (if AnnexHeader(x) != "" then [AnnexHeader(x)] else [])
      + (if x.text != "" then [x.text] else [])
      + (if x.table != "" then ["\nTABLE:\n" + x.table] else [])
  }

  function AnnexParts(annexes: seq<Annex>): seq<string> {
    if annexes == [] then []
    else AnnexParts(annexes[..|annexes| - 1]) + BlockPart(AnnexBlock(annexes[|annexes| - 1]))
  }

  /** The parts before the articles: the title, then the preamble block. */
  function LeadingParts(data: EurlexData): seq<string> {
    (if data.title != "" then [data.title] else [])
      + (if data.preamble != "" then ["\n\nPREAMBLE\n" + data.preamble] else [])
  }

  function FinalParts(data: EurlexData): seq<string> {
    if data.finalPart != "" then ["\n\nFINAL PART\n" + data.finalPart] else []
  }

  /** `parts` as `flatten_eurlex_data` builds it, before blank parts are dropped. */
  function EurlexParts(data: EurlexData): seq<string> {
    LeadingParts(data) + ArticleParts(data.articles) + FinalParts(data) + AnnexParts(data.annexes)
  }

  /** `[p for p in parts if p and p.strip()]` */
  function NonBlank(parts: seq<string>): seq<string> {
    if parts == [] then []
    else (if !IsBlank(parts[0]) then [parts[0]] else []) + NonBlank(parts[1..])
  }

  /** The full text `flatten_eurlex_data` returns. */
  function FlatText(data: EurlexData): string {
    Join("\n", NonBlank(EurlexParts(data)))
  }

  // ---------------------------------------------------------------
  // flatten_eurlex_data
  // ---------------------------------------------------------------

  /** `flatten_eurlex_data`: the title (`data["title"]` or "") and the flattened text. */
  method FlattenEurlexData(data: EurlexData) returns (title: string, fullText: string)
    ensures title == data.title
    ensures fullText == FlatText(data)
  {
    var parts: seq<string> := [];
    title := data.title;
    if title != "" {
      parts := parts + [title];
    }
    if data.preamble != "" {
      parts := parts + ["\n\nPREAMBLE\n" + data.preamble];
    }
    assert parts == LeadingParts(data);
    parts := AppendArticleParts(parts, data.articles);
    if data.finalPart != "" {
      parts := parts + ["\n\nFINAL PART\n" + data.finalPart];
    }
    assert parts == LeadingParts(data) + ArticleParts(data.articles) + FinalParts(data);
    parts := AppendAnnexParts(parts, data.annexes);
    assert parts == EurlexParts(data);
    fullText := Join("\n", NonBlank(parts));
  }

  /** The article loop of `flatten_eurlex_data`. */
  method AppendArticleParts(parts0: seq<string>, arts: seq<Article>) returns (parts: seq<string>)
    ensures parts == parts0 + ArticleParts(arts)
  {
    parts := parts0;
    for i := 0 to |arts|
      invariant parts == parts0 + ArticleParts(arts[..i])
    {
      ghost var before := parts;
      var block := ArticleLines(arts[i]);
      parts := AppendBlock(parts, block);
      ArticlePartsStep(arts, i);
      AppendStep(parts0, before, parts, ArticleParts(arts[..i]), BlockPart(ArticleBlock(arts[i])), ArticleParts(arts[..i + 1]));
    }
    assert arts[..|arts|] == arts;
  }

  /** The lines of one article block, built as the loop body builds them. */
  method ArticleLines(art: Article) returns (block: seq<string>)
    ensures block == ArticleBlock(art)
  {
    block := [];
    var header := ArticleHeader(art);
    if header != "" {
      block := block + [header];
    }
    if art.text != "" {
      block := block + [art.text];
    }
  }

  /** `if block: parts.append("\n\n" + "\n".join(block))` */
  method AppendBlock(parts0: seq<string>, block: seq<string>) returns (parts: seq<string>)
    ensures parts == parts0 + BlockPart(block)
  {
    parts := parts0;
    if block != [] {
      parts := parts + ["\n\n" + Join("\n", block)];
    }
  }

  /** The annex loop of `flatten_eurlex_data`. */
  method AppendAnnexParts(parts0: seq<string>, annexes: seq<Annex>) returns (parts: seq<string>)
    ensures parts == parts0 + AnnexParts(annexes)
  {
    parts := parts0;
    for i := 0 to |annexes|
      invariant parts == parts0 + AnnexParts(annexes[..i])
    {
      ghost var before := parts;
      var block := AnnexLines(annexes[i]);
      parts := AppendBlock(parts, block);
      AnnexPartsStep(annexes, i);
      AppendStep(parts0, before, parts, AnnexParts(annexes[..i]), BlockPart(AnnexBlock(annexes[i])), AnnexParts(annexes[..i + 1]));
    }
    assert annexes[..|annexes|] == annexes;
  }

  /** The lines of one annex block. */
  method AnnexLines(ann: Annex) returns (block: seq<string>)
    ensures block == AnnexBlock(ann)
  {
    block := [];
    var header := AnnexHeader(ann);
    if header != "" {
      block := block + [header];
    }
    if ann.text != "" {
      block := block + [ann.text];
    }
    if ann.table != "" {
      block := block + ["\nTABLE:\n" + ann.table];
    }
  }

  /** One step of the article loop adds the block of the next article. */
  lemma ArticlePartsStep(arts: seq<Article>, i: nat)
    requires i < |arts|
    ensures ArticleParts(arts[..i + 1]) == ArticleParts(arts[..i]) + BlockPart(ArticleBlock(arts[i]))
  {
    assert arts[..i + 1][..i] == arts[..i];
  }

  /** One step of the annex loop adds the block of the next annex. */
  lemma AnnexPartsStep(annexes: seq<Annex>, i: nat)
    requires i < |annexes|
    ensures AnnexParts(annexes[..i + 1]) == AnnexParts(annexes[..i]) + BlockPart(AnnexBlock(annexes[i]))
  {
    assert annexes[..i + 1][..i] == annexes[..i];
  }

  /** Appending `b` to `parts0 + a` gives `parts0 + (a + b)`. */
  lemma AppendStep(parts0: seq<string>, before: seq<string>, after: seq<string>,
                   a: seq<string>, b: seq<string>, total: seq<string>)
    requires before == parts0 + a && after == before + b && total == a + b
    ensures after == parts0 + total
  {
  }

  // ---------------------------------------------------------------
  // properties of the flattened text
  // ---------------------------------------------------------------

  /** Every annex header starts with "ANNEX", so it is never empty. */
  lemma AnnexHeaderStartsWithAnnex(x: Annex)
    ensures StartsWith(AnnexHeader(x), "ANNEX")
  {
    var s := "ANNEX " + x.id + " - " + x.title;
    assert s[..5] == "ANNEX";
    assert !IsSpaceOrDash(s[0]) && !IsSpaceOrDash(s[4]);
    assert LeadingCount(s, IsSpaceOrDash) == 0;
    assert s[0..] == s;
    assert TrailingStart(s, IsSpaceOrDash) >= 5;
  }

  /** An annex block always yields exactly one part, which starts with "\n\nANNEX" and is not blank. */
  lemma AnnexBlockPart(x: Annex)
    ensures |BlockPart(AnnexBlock(x))| == 1
    ensures StartsWith(BlockPart(AnnexBlock(x))[0], "\n\nANNEX")
    ensures NonBlank(BlockPart(AnnexBlock(x))) == BlockPart(AnnexBlock(x))
  {
    AnnexHeaderStartsWithAnnex(x);
    var block := AnnexBlock(x);
    assert block[0] == AnnexHeader(x);
    JoinStartsWith("\n", block);
    var part := "\n\n" + Join("\n", block);
    assert part[2..7] == Join("\n", block)[..5] == "ANNEX";
    NonBlankSingle(part, 2);
  }

  lemma JoinStartsWith(sep: string, parts: seq<string>)
    requires parts != []
    ensures StartsWith(Join(sep, parts), parts[0])
  {
    if |parts| > 1 {
      assert Join(sep, parts) == parts[0] + (sep + Join(sep, parts[1..]));
    }
  }

  lemma NonBlankSingle(p: string, k: nat)
    requires k < |p| && !IsSpace(p[k])
    ensures NonBlank([p]) == [p]
  {
    assert [p][1..] == [];
  }

  /** Every annex contributes one part, and that part is never blank. */
  lemma {:induction false} AnnexPartsKept(annexes: seq<Annex>)
    ensures |AnnexParts(annexes)| == |annexes|
    ensures NonBlank(AnnexParts(annexes)) == AnnexParts(annexes)
    ensures forall k :: 0 <= k < |annexes| ==> StartsWith(AnnexParts(annexes)[k], "\n\nANNEX")
  {
    if annexes != [] {
      var init := annexes[..|annexes| - 1];
      var last := BlockPart(AnnexBlock(annexes[|annexes| - 1]));
      AnnexPartsKept(init);
      AnnexBlockPart(annexes[|annexes| - 1]);
      NonBlankAppend(AnnexParts(init), last);
      assert AnnexParts(annexes) == AnnexParts(init) + last;
    }
  }

  lemma {:induction false} NonBlankAppend(a: seq<string>, b: seq<string>)
    ensures NonBlank(a + b) == NonBlank(a) + NonBlank(b)
  {
    if a != [] {
      NonBlankAppend(a[1..], b);
      assert (a + b)[1..] == a[1..] + b;
    } else {
      assert a + b == b;
    }
  }

  /** An article contributes a kept part exactly when its header is non-empty or its text is not blank. */
  predicate ArticleKept(a: Article) {
    ArticleHeader(a) != "" || !IsBlank(a.text)
  }

  function CountKeptArticles(arts: seq<Article>): nat {
    if arts == [] then 0
    else CountKeptArticles(arts[..|arts| - 1]) + if ArticleKept(arts[|arts| - 1]) then 1 else 0
  }

  /** An article's block yields a kept part exactly when the article is kept. */
  lemma ArticleBlockPart(a: Article)
    ensures |NonBlank(BlockPart(ArticleBlock(a)))| == Count(ArticleKept(a))
  {
    var block := ArticleBlock(a);
    var h := ArticleHeader(a);
    if h != "" {
      StripByKeeps(Join(" ", NonEmpty([a.id, a.title])), IsSpace);
      JoinStartsWith("\n", block);
      var part := "\n\n" + Join("\n", block);
      assert part[2] == h[0];
      NonBlankSingle(part, 2);
    } else if a.text != "" {
      var part: string := "\n\n" + a.text;
      assert block == [a.text];
      assert IsBlank(part) <==> IsBlank(a.text) by {
        assert forall k :: 0 <= k < |a.text| ==> part[k + 2] == a.text[k];
      }
      assert NonBlank([part]) == if IsBlank(part) then [] else [part] by {
        assert [part][1..] == [];
      }
    }
  }

  lemma {:induction false} ArticlePartsKept(arts: seq<Article>)
    ensures |NonBlank(ArticleParts(arts))| == CountKeptArticles(arts)
  {
    if arts != [] {
      var init := arts[..|arts| - 1];
      var last := BlockPart(ArticleBlock(arts[|arts| - 1]));
      ArticlePartsKept(init);
      ArticleBlockPart(arts[|arts| - 1]);
      NonBlankAppend(ArticleParts(init), last);
      assert ArticleParts(arts) == ArticleParts(init) + last;
    }
  }

  function Count(b: bool): nat {
    if b then 1 else 0
  }

  /**
   * The flattened text is made of exactly these parts: the title when not
   * blank, the preamble when present, one per kept article, the final part
   * when present, and one per annex.
   */
  lemma FlatPartsCount(data: EurlexData)
    ensures |NonBlank(EurlexParts(data))| ==
      Count(!IsBlank(data.title)) + Count(data.preamble != "") + CountKeptArticles(data.articles)
        + Count(data.finalPart != "") + |data.annexes|
  {
    var lead := LeadingParts(data);
    var arts := ArticleParts(data.articles);
    var fin := FinalParts(data);
    var anx := AnnexParts(data.annexes);
    NonBlankAppend(lead + arts + fin, anx);
    NonBlankAppend(lead + arts, fin);
    NonBlankAppend(lead, arts);
    LeadingPartsKept(data);
    ArticlePartsKept(data.articles);
    FinalPartsKept(data);
    AnnexPartsKept(data.annexes);
  }

  lemma LeadingPartsKept(data: EurlexData)
    ensures |NonBlank(LeadingParts(data))| == Count(!IsBlank(data.title)) + Count(data.preamble != "")
  {
    var t := if data.title != "" then [data.title] else [];
    var p := if data.preamble != "" then ["\n\nPREAMBLE\n" + data.preamble] else [];
    NonBlankAppend(t, p);
    if data.title != "" {
      assert NonBlank(t) == if IsBlank(data.title) then [] else [data.title] by {
        assert t[1..] == [];
      }
    }
    if data.preamble != "" {
      NonBlankSingle(p[0], 2);
    }
  }

  lemma FinalPartsKept(data: EurlexData)
    ensures |NonBlank(FinalParts(data))| == Count(data.finalPart != "")
  {
    if data.finalPart != "" {
      NonBlankSingle(FinalParts(data)[0], 2);
    }
  }

  /** `ingest_eu_eurlex` skips an act exactly when none of these parts is present. */
  lemma FlatTextEmptyIff(data: EurlexData)
    ensures FlatText(data) == "" <==>
      && IsBlank(data.title) && data.preamble == "" && CountKeptArticles(data.articles) == 0
      && data.finalPart == "" && data.annexes == []
  {
    FlatPartsCount(data);
    NonBlankNonEmpty(EurlexParts(data));
    JoinEmptyIff("\n", NonBlank(EurlexParts(data)));
  }

  lemma {:induction false} NonBlankNonEmpty(parts: seq<string>)
    ensures forall k :: 0 <= k < |NonBlank(parts)| ==> NonBlank(parts)[k] != ""
  {
    if parts != [] {
      NonBlankNonEmpty(parts[1..]);
    }
  }

  // ---------------------------------------------------------------
  // ingest_eu_eurlex
  // ---------------------------------------------------------------

  /** What `get_data_by_celex_id` gave: an exception, nothing (None or {}), or the parsed act. */
  datatype CelexLookup = LookupRaised | NoData | Found(data: EurlexData)

  /** The EUR-Lex parser, `json.dumps`, and the UTC clock read at the n-th save. */
  datatype EurlexService = EurlexService(
    lookup: string -> CelexLookup,
    toJson: EurlexData -> string,
    clock: nat -> string)

  function CelexUrl(celex: string): string {
    "https://eur-lex.europa.eu/legal-content/EN/TXT/?uri=CELEX:" + celex
  }

  /** A CELEX id is saved when its lookup succeeds with data whose flattened text is non-empty. */
  predicate Ingestible(svc: EurlexService, celex: string) {
    svc.lookup(celex).Found? && FlatText(svc.lookup(celex).data) != ""
  }

  /** The row an ingestible act is saved as, up to its id and timestamp. */
  predicate IsEurlexRow(svc: EurlexService, celex: string, d: Document)
    requires Ingestible(svc, celex)
  {
    var data := svc.lookup(celex).data;
    && d.source == "EURLEX"
    && d.title == (if data.title != "" then data.title else celex)
    && d.text == FlatText(data)
    && d.rawJson == Some(svc.toJson(data))
    && d.celex == Some(celex) && d.lawId == Some(celex)
    && !d.isPdf && d.statusCode == None
    && d.contentType == Some("text/html;parsed-via-eurlex-parser")
  }

  /** The URLs of the saved CELEX ids, in order. */
  function CelexUrls(celexIds: seq<string>): (urls: seq<string>)
    ensures |urls| == |celexIds|
    ensures forall k :: 0 <= k < |celexIds| ==> urls[k] == CelexUrl(celexIds[k])
  {
    if celexIds == [] then [] else CelexUrls(celexIds[..|celexIds| - 1]) + [CelexUrl(celexIds[|celexIds| - 1])]
  }

  /** Distinct CELEX ids have distinct URLs, so they never overwrite each other's row. */
  lemma CelexUrlInjective(a: string, b: string)
    requires CelexUrl(a) == CelexUrl(b)
    ensures a == b
  {
    var p := "https://eur-lex.europa.eu/legal-content/EN/TXT/?uri=CELEX:";
    assert a == CelexUrl(a)[|p|..];
    assert b == CelexUrl(b)[|p|..];
  }

  /**
   * The body of `ingest_eu_eurlex`'s loop for one CELEX id: look it up,
   * flatten it, and save it when its text is non-empty. `now` is the
   * timestamp the save would carry.
   */
  method IngestOne(store: DocumentTable, celex: string, svc: EurlexService, now: string) returns (ok: bool)
    requires store.Valid()
    modifies store
    ensures store.Valid()
    ensures ok <==> Ingestible(svc, celex)
    ensures !ok ==> store.rows == old(store.rows)
    ensures ok ==>
      var key := DocKey("EU", CelexUrl(celex));
      && key in store.rows && IsEurlexRow(svc, celex, store.rows[key])
      && store.rows == Upsert(old(store.rows), key, store.rows[key])
  {
    var lookup := svc.lookup(celex);
    if !lookup.Found? {
      return false;
    }
    var title, text := FlattenEurlexData(lookup.data);
    if text == "" {
      return false;
    }
    var rawJson := svc.toJson(lookup.data);
    var url := CelexUrl(celex);
    store.SaveDocument("EU", "EURLEX", if title != "" then title else celex, text, false, url,
      None, Some("text/html;parsed-via-eurlex-parser"), Some(celex), Some(celex), Some(rawJson), now);
    return true;
  }

  /**
   * The ingestible ids of `ids`, in their order: every one of them is an
   * ingestible id of `ids`, and an id of `ids` is among them exactly when
   * it is ingestible.
   */
  function IngestibleIds(svc: EurlexService, ids: seq<string>): (r: seq<string>)
    ensures |r| <= |ids|
    ensures forall k :: 0 <= k < |r| ==> Ingestible(svc, r[k]) && r[k] in ids
    ensures forall k :: 0 <= k < |ids| ==> (Ingestible(svc, ids[k]) <==> ids[k] in r)
  {
    if ids == [] then []
    else
      var init := ids[..|ids| - 1];
      var celex := ids[|ids| - 1];
      assert forall k :: 0 <= k < |init| ==> init[k] == ids[k];
      if Ingestible(svc, celex) then IngestibleIds(svc, init) + [celex] else IngestibleIds(svc, init)
  }

  /** `saved` holds, in order, exactly the ingestible ids of `ids`. */
  ghost predicate SavedExactly(svc: EurlexService, ids: seq<string>, saved: seq<string>) {
    saved == IngestibleIds(svc, ids)
  }

  /** Every ingestible id of `ids` has its EUR-Lex row in `rows`. */
  ghost predicate RowsPresent(svc: EurlexService, ids: seq<string>, rows: Rows) {
    forall k :: 0 <= k < |ids| && Ingestible(svc, ids[k]) ==>
      var key := DocKey("EU", CelexUrl(ids[k]));
      key in rows && IsEurlexRow(svc, ids[k], rows[key])
  }

  lemma SavedExactlyStep(svc: EurlexService, ids: seq<string>, saved: seq<string>, celex: string)
    requires SavedExactly(svc, ids, saved)
    ensures Ingestible(svc, celex) ==> SavedExactly(svc, ids + [celex], saved + [celex])
    ensures !Ingestible(svc, celex) ==> SavedExactly(svc, ids + [celex], saved)
  {
    assert (ids + [celex])[..|ids|] == ids;
  }

  /** One step of the loop keeps the rows of earlier ids and adds the row of `celex`. */
  lemma RowsPresentStep(svc: EurlexService, ids: seq<string>, celex: string, before: Rows, after: Rows)
    requires RowsPresent(svc, ids, before)
    requires !Ingestible(svc, celex) ==> after == before
    requires Ingestible(svc, celex) ==>
      var key := DocKey("EU", CelexUrl(celex));
      && key in after && IsEurlexRow(svc, celex, after[key])
      && after == Upsert(before, key, after[key])
    ensures RowsPresent(svc, ids + [celex], after)
  {
    var all := ids + [celex];
    forall k | 0 <= k < |all| && Ingestible(svc, all[k])
      ensures var key := DocKey("EU", CelexUrl(all[k]));
        key in after && IsEurlexRow(svc, all[k], after[key])
    {
      if k < |ids| && CelexUrl(ids[k]) == CelexUrl(celex) {
        CelexUrlInjective(ids[k], celex);
      }
    }
  }

  /**
   * What ingesting `ids` one by one has done, starting from the rows
   * `orig`: `saved` lists the ingestible ids, each has its row in `rows`,
   * and no row outside the EU rows of the saved ids has changed.
   */
  ghost predicate Ingested(svc: EurlexService, ids: seq<string>, saved: seq<string>, orig: Rows, rows: Rows) {
    && SavedExactly(svc, ids, saved)
    && RowsPresent(svc, ids, rows)
    && OnlyTouches(orig, rows, "EU", CelexUrls(saved))
  }

  /** What one call of the loop body does to the rows, as `IngestOne` promises it. */
  ghost predicate IngestedOne(svc: EurlexService, celex: string, before: Rows, after: Rows) {
    && (!Ingestible(svc, celex) ==> after == before)
    && (Ingestible(svc, celex) ==>
      var key := DocKey("EU", CelexUrl(celex));
      && key in after && IsEurlexRow(svc, celex, after[key])
      && after == Upsert(before, key, after[key]))
  }

  /** One step of `ingest_eu_eurlex`'s loop keeps its invariant. */
  lemma IngestStep(svc: EurlexService, all: seq<string>, i: nat, saved: seq<string>,
                   orig: Rows, before: Rows, after: Rows)
    requires i < |all|
    requires Ingested(svc, all[..i], saved, orig, before)
    requires IngestedOne(svc, all[i], before, after)
    ensures Ingested(svc, all[..i + 1], if Ingestible(svc, all[i]) then saved + [all[i]] else saved, orig, after)
  {
    assert all[..i + 1] == all[..i] + [all[i]];
    IngestStepAppend(svc, all[..i], saved, all[i], orig, before, after);
  }

  /** `IngestStep` for the ids so far as a sequence and the next id. */
  lemma IngestStepAppend(svc: EurlexService, ids: seq<string>, saved: seq<string>, celex: string,
                   orig: Rows, before: Rows, after: Rows)
    requires SavedExactly(svc, ids, saved)
    requires RowsPresent(svc, ids, before)
    requires OnlyTouches(orig, before, "EU", CelexUrls(saved))
    requires !Ingestible(svc, celex) ==> after == before
    requires Ingestible(svc, celex) ==>
      var key := DocKey("EU", CelexUrl(celex));
      && key in after && IsEurlexRow(svc, celex, after[key])
      && after == Upsert(before, key, after[key])
    ensures var next := if Ingestible(svc, celex) then saved + [celex] else saved;
      && SavedExactly(svc, ids + [celex], next)
      && RowsPresent(svc, ids + [celex], after)
      && OnlyTouches(orig, after, "EU", CelexUrls(next))
  {
    SavedExactlyStep(svc, ids, saved, celex);
    RowsPresentStep(svc, ids, celex, before, after);
    if Ingestible(svc, celex) {
      var key := DocKey("EU", CelexUrl(celex));
      OnlyTouchesUpsert(orig, before, "EU", CelexUrls(saved), CelexUrl(celex), after[key]);
      assert (saved + [celex])[..|saved|] == saved;
    }
  }

  /** `ingest_eu_eurlex`: returns the CELEX ids it saved, in order. */
  method IngestEuEurlex(store: DocumentTable, celexIds: seq<string>, svc: EurlexService)
    returns (saved: seq<string>)
    requires store.Valid()
    modifies store
    ensures store.Valid()
    ensures Ingested(svc, celexIds, saved, old(store.rows), store.rows)
  {
    saved := [];
    for i := 0 to |celexIds|
      invariant store.Valid()
      invariant Ingested(svc, celexIds[..i], saved, old(store.rows), store.rows)
    {
      ghost var before := store.rows;
      var ok := IngestOne(store, celexIds[i], svc, svc.clock(|saved|));
      IngestStep(svc, celexIds, i, saved, old(store.rows), before, store.rows);
      if ok {
        saved := saved + [celexIds[i]];
      }
    }
    assert celexIds[..|celexIds|] == celexIds;
  }
}
