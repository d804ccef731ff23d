/**
 * The `documents` table of the generic crawler (crawler_scrapper.py):
 * one row per `(jurisdiction, url)`, written with SQLite's
 * `INSERT OR REPLACE`, which deletes a conflicting row and inserts a new
 * one with a fresh AUTOINCREMENT id.
 */
module DocumentStore {
  import opened Wrappers

  /** The table's uniqueness constraint, `UNIQUE (jurisdiction, url)`; `url` is never NULL here. */
  datatype DocKey = DocKey(jurisdiction: string, url: string)

  /** The non-key columns of one row. `isPdf` stands for the stored 0/1. */
  datatype Document = Document(
    id: nat,
    source: string,
    celex: Option<string>,
    lawId: Option<string>,
    title: string,
    text: string,
    rawJson: Option<string>,
    isPdf: bool,
    contentType: Option<string>,
    statusCode: Option<int>,
    fetchedAt: string)

  type Rows = map<DocKey, Document>

  /** `INSERT OR REPLACE`: the row for `key` becomes `doc`; no other row is touched. */
  function Upsert(rows: Rows, key: DocKey, doc: Document): (r: Rows)
    ensures key in r && r[key] == doc
    ensures r.Keys == rows.Keys + {key}
    ensures forall k :: k in rows && k != key ==> r[k] == rows[k]
  {
    rows[key := doc]
  }

  /** Row ids are below the next AUTOINCREMENT value and no two rows share one. */
  ghost predicate IdsFresh(rows: Rows, nextId: nat) {
    && (forall k :: k in rows ==> rows[k].id < nextId)
    && (forall k1, k2 :: k1 in rows && k2 in rows && k1 != k2 ==> rows[k1].id != rows[k2].id)
  }

  /** Writing a key adds a row only when the key was absent. */
  lemma UpsertRowCount(rows: Rows, key: DocKey, doc: Document)
    ensures |Upsert(rows, key, doc)| == if key in rows then |rows| else |rows| + 1
  {
    if key in rows {
      assert Upsert(rows, key, doc).Keys == rows.Keys;
    } else {
      assert Upsert(rows, key, doc).Keys == rows.Keys + {key};
    }
  }

  /** Saving the same key twice leaves one row, holding the later values (latest wins). */
  lemma UpsertTwice(rows: Rows, key: DocKey, first: Document, second: Document)
    ensures Upsert(Upsert(rows, key, first), key, second) == Upsert(rows, key, second)
    ensures |Upsert(Upsert(rows, key, first), key, second)| == |Upsert(rows, key, first)|
  {
    UpsertRowCount(Upsert(rows, key, first), key, second);
  }

  /** Keys other than those in `touched` keep their rows, and no row disappears. */
  ghost predicate OnlyTouches(before: Rows, after: Rows, jurisdiction: string, urls: seq<string>) {
    && before.Keys <= after.Keys
    && forall k :: k in after && (k !in before || after[k] != before[k]) ==>
         k.jurisdiction == jurisdiction && k.url in urls
  }

  /** An upsert of one more URL under the same jurisdiction keeps `OnlyTouches`. */
  lemma OnlyTouchesUpsert(before: Rows, mid: Rows, jurisdiction: string, urls: seq<string>, url: string, doc: Document)
    requires OnlyTouches(before, mid, jurisdiction, urls)
    ensures OnlyTouches(before, Upsert(mid, DocKey(jurisdiction, url), doc), jurisdiction, urls + [url])
  {
  }

  /** Allowing one more URL keeps `OnlyTouches`. */
  lemma OnlyTouchesExtend(before: Rows, after: Rows, jurisdiction: string, urls: seq<string>, url: string)
    requires OnlyTouches(before, after, jurisdiction, urls)
    ensures OnlyTouches(before, after, jurisdiction, urls + [url])
  {
  }

  class DocumentTable {
    var rows: Rows
    var nextId: nat

    ghost predicate Valid()
      reads this
    {
      nextId >= 1 && IdsFresh(rows, nextId)
    }

    /** `init_db` on a new database file: an empty table whose ids start at 1. */
    constructor ()
      ensures Valid() && rows == map[] && nextId == 1
    {
      rows := map[];
      nextId := 1;
    }

    /** `save_document`: upsert keyed on `(jurisdiction, url)`, stamped with `now`. */
    method SaveDocument(
      jurisdiction: string, source: string, title: string, text: string, isPdf: bool,
      url: string, statusCode: Option<int>, contentType: Option<string>,
      celex: Option<string>, lawId: Option<string>, rawJson: Option<string>, now: string)
      requires Valid()
      modifies this
      ensures Valid()
      ensures nextId == old(nextId) + 1
      ensures rows == Upsert(old(rows), DocKey(jurisdiction, url),
        Document(old(nextId), source, celex, lawId, title, text, rawJson, isPdf, contentType, statusCode, now))
      ensures DocKey(jurisdiction, url) in old(rows) ==>
        rows[DocKey(jurisdiction, url)].id != old(rows)[DocKey(jurisdiction, url)].id
    {
      var doc := Document(nextId, source, celex, lawId, title, text, rawJson, isPdf, contentType, statusCode, now);
      rows := Upsert(rows, DocKey(jurisdiction, url), doc);
      nextId := nextId + 1;
    }
  }
}
