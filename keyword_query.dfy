/**
 * The keyword search of query_ev.py: a WHERE clause that matches a row
 * of the `documents` table when its title or URL (and its content, when
 * that column exists) contains one of the keywords, ignoring case; and
 * the region name derived from a database file name.
 *
 * The clauses are built as values (`Condition`) and rendered to SQL text;
 * `Holds` gives a condition its SQLite meaning, `LOWER(col) LIKE '%p%'`
 * with a lower-case pattern free of `%` and `_` being a substring test.
 */
module KeywordQuery {
  import opened Wrappers
  import opened PyStr

  /** `KEYWORDS` */
  const Keywords: seq<string> := ["electric", "battery", "hybrid"]

  /** The searched columns: `TITLE_COL`, `URL_COL`, `CONTENT_COL`. */
  datatype Column = Title | Url | Content

  /** `LOWER(col) LIKE '%pattern%'` */
  datatype Condition = Like(col: Column, pattern: string)

  /**
   * The SQL text of a condition, as the f-strings write it: the URL
   * clause carries three spaces after its column.
   */
  function Render(c: Condition): string {
    match c.col
    case Title => "LOWER(title) LIKE '%" + c.pattern + "%'"
    case Url => "LOWER(url)   LIKE '%" + c.pattern + "%'"
    case Content => "LOWER(content) LIKE '%" + c.pattern + "%'"
  }

  /**
   * The `k`-th clause: for keyword `k / 2`, a title clause at even `k` and
   * a URL clause at odd `k`, among the first `2 * |keywords|`; after them,
   * with a content column, the content clause of keyword `k - 2 * |keywords|`.
   */
  function ClauseAt(keywords: seq<string>, hasContent: bool, k: nat): Condition
    requires k < (if hasContent then 3 else 2) * |keywords|
  {
    if k < 2 * |keywords| then Like(if k % 2 == 0 then Title else Url, Lower(keywords[k / 2]))
    else Like(Content, Lower(keywords[k - 2 * |keywords|]))
  }

  /** The title and URL conditions, two per keyword, in keyword order. */
  function TitleUrlConditions(keywords: seq<string>): (cs: seq<Condition>)
    ensures |cs| == 2 * |keywords|
    ensures forall k {:trigger cs[k]} :: 0 <= k < |cs| ==> cs[k] == ClauseAt(keywords, false, k)
  {
    if keywords == [] then []
    else
      var init := keywords[..|keywords| - 1];
      var kw := Lower(keywords[|keywords| - 1]);
      var r := TitleUrlConditions(init) + [Like(Title, kw), Like(Url, kw)];
      assert forall k {:trigger r[k]} :: 0 <= k < |r| ==> r[k] == ClauseAt(keywords, false, k) by {
        forall k | 0 <= k < |r|
          ensures r[k] == ClauseAt(keywords, false, k)
        {
          if k < |r| - 2 {
            assert r[k] == TitleUrlConditions(init)[k];
            assert keywords[k / 2] == init[k / 2];
          }
        }
      }
      r
  }

  /** The content conditions, one per keyword, in keyword order. */
  function ContentConditions(keywords: seq<string>): (cs: seq<Condition>)
    ensures |cs| == |keywords|
    ensures forall k {:trigger cs[k]} :: 0 <= k < |cs| ==> cs[k] == Like(Content, Lower(keywords[k]))
  {
    if keywords == [] then []
    else
      var init := keywords[..|keywords| - 1];
      var r := ContentConditions(init) + [Like(Content, Lower(keywords[|keywords| - 1]))];
      assert forall k {:trigger r[k]} :: 0 <= k < |r| ==> r[k] == Like(Content, Lower(keywords[k])) by {
        forall k | 0 <= k < |r|
          ensures r[k] == Like(Content, Lower(keywords[k]))
        {
          if k < |r| - 1 {
            assert r[k] == ContentConditions(init)[k];
            assert keywords[k] == init[k];
          }
        }
      }
      r
  }

  /**
   * The clauses of `build_where_clause`: for each keyword a title then a
   * URL clause, then, only with a content column, one content clause per
   * keyword.
   */
  function WhereConditions(keywords: seq<string>, hasContent: bool): (cs: seq<Condition>)
    ensures |cs| == if hasContent then 3 * |keywords| else 2 * |keywords|
    ensures forall k {:trigger cs[k]} :: 0 <= k < |cs| ==> cs[k] == ClauseAt(keywords, hasContent, k)
  {
    var tu := TitleUrlConditions(keywords);
    if hasContent then
      var c := ContentConditions(keywords);
      assert forall k {:trigger (tu + c)[k]} :: 0 <= k < |tu + c| ==> (tu + c)[k] == ClauseAt(keywords, true, k) by {
        forall k | 0 <= k < |tu + c|
          ensures (tu + c)[k] == ClauseAt(keywords, true, k)
        {
          if k < |tu| {
            assert (tu + c)[k] == tu[k];
          } else {
            assert (tu + c)[k] == c[k - |tu|];
          }
        }
      }
      tu + c
    else tu
  }

  /** The rendered clauses, in order. */
  function RenderAll(cs: seq<Condition>): (ss: seq<string>)
    ensures |ss| == |cs|
    ensures forall i :: 0 <= i < |cs| ==> ss[i] == Render(cs[i])
  {
    seq(|cs|, i requires 0 <= i < |cs| => Render(cs[i]))
  }

  lemma RenderAllAppend(a: seq<Condition>, b: seq<Condition>)
    ensures RenderAll(a + b) == RenderAll(a) + RenderAll(b)
  {
    var l, r := RenderAll(a + b), RenderAll(a) + RenderAll(b);
    forall i | 0 <= i < |a + b|
      ensures l[i] == r[i]
    {
      if i < |a| {
        assert (a + b)[i] == a[i];
      } else {
        assert (a + b)[i] == b[i - |a|];
      }
    }
  }

  lemma TitleUrlStep(keywords: seq<string>, i: nat)
    requires i < |keywords|
    ensures RenderAll(TitleUrlConditions(keywords[..i + 1])) == RenderAll(TitleUrlConditions(keywords[..i]))
      + ["LOWER(title) LIKE '%" + Lower(keywords[i]) + "%'", "LOWER(url)   LIKE '%" + Lower(keywords[i]) + "%'"]
  {
    var kw := Lower(keywords[i]);
    assert keywords[..i + 1][..i] == keywords[..i];
    assert TitleUrlConditions(keywords[..i + 1]) == TitleUrlConditions(keywords[..i]) + [Like(Title, kw), Like(Url, kw)];
    RenderAllAppend(TitleUrlConditions(keywords[..i]), [Like(Title, kw), Like(Url, kw)]);
  }

  lemma ContentStep(keywords: seq<string>, i: nat)
    requires i < |keywords|
    ensures RenderAll(ContentConditions(keywords[..i + 1])) == RenderAll(ContentConditions(keywords[..i]))
      + ["LOWER(content) LIKE '%" + Lower(keywords[i]) + "%'"]
  {
    var kw := Lower(keywords[i]);
    assert keywords[..i + 1][..i] == keywords[..i];
    assert ContentConditions(keywords[..i + 1]) == ContentConditions(keywords[..i]) + [Like(Content, kw)];
    RenderAllAppend(ContentConditions(keywords[..i]), [Like(Content, kw)]);
  }

  /** `build_where_clause(has_content)` over `keywords` (the source passes `KEYWORDS`). */
  method BuildWhereClause(keywords: seq<string>, hasContent: bool) returns (where: string)
    ensures where == Join(" OR ", RenderAll(WhereConditions(keywords, hasContent)))
  {
    var clauses: seq<string> := [];
    for i := 0 to |keywords|
      invariant clauses == RenderAll(TitleUrlConditions(keywords[..i]))
    {
      var kw := Lower(keywords[i]);
      TitleUrlStep(keywords, i);
      clauses := clauses + ["LOWER(title) LIKE '%" + kw + "%'"];
      clauses := clauses + ["LOWER(url)   LIKE '%" + kw + "%'"];
    }
    assert keywords[..|keywords|] == keywords;
    ghost var titleUrl := clauses;
    if hasContent {
      for i := 0 to |keywords|
        invariant clauses == titleUrl + RenderAll(ContentConditions(keywords[..i]))
      {
        var kw := Lower(keywords[i]);
        ContentStep(keywords, i);
        clauses := clauses + ["LOWER(content) LIKE '%" + kw + "%'"];
      }
      assert keywords[..|keywords|] == keywords;
      RenderAllAppend(TitleUrlConditions(keywords), ContentConditions(keywords));
    }
    where := Join(" OR ", clauses);
  }

  // ---------------------------------------------------------------
  // what the clauses mean
  // ---------------------------------------------------------------

  /** A row of `documents` as the query reads it; `content` is NULL or absent as `None`. */
  datatype Row = Row(title: string, url: string, content: Option<string>)

  /**
   * SQLite's meaning of `LOWER(col) LIKE '%pattern%'` for a lower-case
   * pattern without wildcards: the lower-cased value contains the pattern.
   * `LOWER(NULL)` is NULL, and a NULL condition does not select the row.
   */
  predicate Holds(c: Condition, row: Row) {
    match c.col
    case Title => Contains(Lower(row.title), c.pattern)
    case Url => Contains(Lower(row.url), c.pattern)
    case Content => row.content.Some? && Contains(Lower(row.content.value), c.pattern)
  }

  /** The rows the WHERE clause selects: those for which some clause holds. */
  predicate Selected(cs: seq<Condition>, row: Row) {
    exists k :: 0 <= k < |cs| && Holds(cs[k], row)
  }

  /** Case-insensitive containment of a keyword. */
  predicate Mentions(value: string, kw: string) {
    Contains(Lower(value), Lower(kw))
  }

  /** What the search promises: some keyword occurs, ignoring case, in a searched column. */
  predicate MentionsSomeKeyword(keywords: seq<string>, hasContent: bool, row: Row) {
    exists i :: 0 <= i < |keywords| &&
      (|| Mentions(row.title, keywords[i])
       || Mentions(row.url, keywords[i])
       || (hasContent && row.content.Some? && Mentions(row.content.value, keywords[i])))
  }

  /**
   * The WHERE clause selects a row exactly when the row mentions some
   * keyword, in either case, in its title or URL, or in its content when
   * the table has that column.
   */
  lemma WhereSelectsIff(keywords: seq<string>, hasContent: bool, row: Row)
    ensures Selected(WhereConditions(keywords, hasContent), row) <==> MentionsSomeKeyword(keywords, hasContent, row)
  {
    if Selected(WhereConditions(keywords, hasContent), row) {
      SelectedMentions(keywords, hasContent, row);
    }
    if MentionsSomeKeyword(keywords, hasContent, row) {
      MentionsSelected(keywords, hasContent, row);
    }
  }

  /** A selected row mentions the keyword of the clause that selected it. */
  lemma SelectedMentions(keywords: seq<string>, hasContent: bool, row: Row)
    requires Selected(WhereConditions(keywords, hasContent), row)
    ensures MentionsSomeKeyword(keywords, hasContent, row)
  {
    var cs := WhereConditions(keywords, hasContent);
    var n := |keywords|;
    var k :| 0 <= k < |cs| && Holds(cs[k], row);
    if k < 2 * n {
      var i := k / 2;
      assert k == 2 * i || k == 2 * i + 1;
      assert 0 <= i < n;
    } else {
      var i := k - 2 * n;
      assert 0 <= i < n && cs[2 * n + i] == cs[k];
    }
  }

  /** A row mentioning a keyword in a searched column is selected by that keyword's clause. */
  lemma MentionsSelected(keywords: seq<string>, hasContent: bool, row: Row)
    requires MentionsSomeKeyword(keywords, hasContent, row)
    ensures Selected(WhereConditions(keywords, hasContent), row)
  {
    var cs := WhereConditions(keywords, hasContent);
    var n := |keywords|;
    var i :| 0 <= i < n &&
      (|| Mentions(row.title, keywords[i])
       || Mentions(row.url, keywords[i])
       || (hasContent && row.content.Some? && Mentions(row.content.value, keywords[i])));
    if Mentions(row.title, keywords[i]) {
      assert 2 * i < |cs| && Holds(cs[2 * i], row);
    } else if Mentions(row.url, keywords[i]) {
      assert 2 * i + 1 < |cs| && Holds(cs[2 * i + 1], row);
    } else {
      assert 2 * n + i < |cs| && Holds(cs[2 * n + i], row);
    }
  }

  /** Lower-casing twice is lower-casing once. */
  lemma LowerIdempotent(s: string)
    ensures Lower(Lower(s)) == Lower(s)
    ensures IsLower(Lower(s))
  {
  }

  /** Keywords given in any case build the same clauses: `kw.lower()` is applied first. */
  lemma KeywordCaseIgnored(keywords: seq<string>, hasContent: bool)
    ensures WhereConditions(seq(|keywords|, i requires 0 <= i < |keywords| => Lower(keywords[i])), hasContent)
      == WhereConditions(keywords, hasContent)
  {
    var lowered := seq(|keywords|, i requires 0 <= i < |keywords| => Lower(keywords[i]));
    forall i | 0 <= i < |keywords|
      ensures Lower(lowered[i]) == Lower(keywords[i])
    {
      LowerIdempotent(keywords[i]);
    }
    var a, b := WhereConditions(lowered, hasContent), WhereConditions(keywords, hasContent);
    var n := |keywords|;
    forall k | 0 <= k < |a|
      ensures a[k] == b[k]
    {
      if k < 2 * n {
        var i := k / 2;
        assert k == 2 * i || k == 2 * i + 1;
      } else {
        assert a[2 * n + (k - 2 * n)] == b[2 * n + (k - 2 * n)];
      }
    }
  }

  /** Against a table without a content column, a title "Battery Pack Recall" is selected through "battery". */
  lemma BatteryPackSelected()
    ensures Selected(WhereConditions(Keywords, false), Row("Battery Pack Recall", "https://example.org/r/1", None))
  {
    var title := "Battery Pack Recall";
    var lowered := Lower(title);
    assert lowered[..7] == "battery";
    assert Lower(Keywords[1]) == "battery";
    assert Mentions(title, Keywords[1]);
    WhereSelectsIff(Keywords, false, Row(title, "https://example.org/r/1", None));
  }

  /** Without a content column, a row mentioning "electric" only in its content is not selected. */
  lemma ContentIgnoredWithoutColumn()
    ensures !Selected(WhereConditions(Keywords, false), Row("Road Audit", "x.org/1", Some("electric")))
  {
    var row := Row("Road Audit", "x.org/1", Some("electric"));
    NoKeywordMentioned(row.title);
    NoKeywordMentioned(row.url);
    WhereSelectsIff(Keywords, false, row);
  }

  /** A value with no 'e', 'b' or 'h' in either case mentions none of the keywords. */
  lemma NoKeywordMentioned(s: string)
    requires forall j :: 0 <= j < |s| ==> LowerChar(s[j]) !in "ebh"
    ensures forall i :: 0 <= i < |Keywords| ==> !Mentions(s, Keywords[i])
  {
    var t := Lower(s);
    assert forall j :: 0 <= j < |t| ==> t[j] !in "ebh";
    var e, b, h := Lower(Keywords[0]), Lower(Keywords[1]), Lower(Keywords[2]);
    assert e[0] == 'e' && b[0] == 'b' && h[0] == 'h';
    NotContains(t, e);
    NotContains(t, b);
    NotContains(t, h);
  }

  /** A string with no occurrence of the first character of `p` does not contain `p`. */
  lemma {:induction false} NotContains(s: string, p: string)
    requires p != [] && forall j :: 0 <= j < |s| ==> s[j] != p[0]
    ensures !Contains(s, p)
    decreases |s|
  {
    if s != [] {
      NotContains(s[1..], p);
      if |p| <= |s| {
        assert s[..|p|][0] == s[0] != p[0];
      }
    }
  }

  // ---------------------------------------------------------------
  // query_db: region name and extract column
  // ---------------------------------------------------------------

  /** Index just after the last '/' of `path`, or 0 when there is none. */
  function BaseStart(path: string): (i: nat)
    ensures i <= |path|
    ensures i > 0 ==> path[i - 1] == '/'
    ensures forall j :: i <= j < |path| ==> path[j] != '/'
  {
    if path == [] then 0
    else if path[|path| - 1] == '/' then |path|
    else BaseStart(path[..|path| - 1])
  }

  /** `os.path.basename` (POSIX). */
  function BaseName(path: string): string {
    path[BaseStart(path)..]
  }

  /** Index of the last '.' of `s`, when there is one. */
  function LastDot(s: string): (r: Option<nat>)
    ensures r.Some? ==> r.value < |s| && s[r.value] == '.'
    ensures r.Some? ==> forall j :: r.value < j < |s| ==> s[j] != '.'
    ensures r.None? ==> forall j :: 0 <= j < |s| ==> s[j] != '.'
  {
    if s == [] then None
    else if s[|s| - 1] == '.' then Some(|s| - 1)
    else LastDot(s[..|s| - 1])
  }

  /** All characters before `n` are dots. */
  predicate LeadingDots(s: string, n: nat)
    requires n <= |s|
  {
    forall j :: 0 <= j < n ==> s[j] == '.'
  }

  /**
   * `os.path.splitext(name)[0]` for a name without '/': everything before
   * the last dot, unless only dots precede it (a hidden file keeps its name).
   */
  function SplitExtRoot(name: string): string {
    match LastDot(name)
    case None => name
    case Some(d) => if LeadingDots(name, d) then name else name[..d]
  }

  /** `os.path.splitext(os.path.basename(db_path))[0]` */
  function RegionName(dbPath: string): string {
    SplitExtRoot(BaseName(dbPath))
  }

  /**
   * A database file `<dir>/<region>.db` gives back `<region>`, for a
   * region name without '/' or '.', whatever the directory.
   */
  lemma RegionNameOfDbFile(dir: string, region: string)
    requires region != [] && forall j :: 0 <= j < |region| ==> region[j] != '/' && region[j] != '.'
    ensures RegionName(dir + "/" + region + ".db") == region
    ensures RegionName(region + ".db") == region
  {
    var name := region + ".db";
    assert forall j :: 0 <= j < |name| ==> name[j] != '/';
    RootOfDbName(region);
    BaseNameAfterSlash(dir, name);
    assert dir + "/" + region + ".db" == dir + "/" + name;
    assert BaseStart(name) == 0 by {
      if BaseStart(name) > 0 {
        assert false;
      }
    }
  }

  /** The base name of `<dir>/<name>` is `name` when `name` holds no '/'. */
  lemma BaseNameAfterSlash(dir: string, name: string)
    requires forall j :: 0 <= j < |name| ==> name[j] != '/'
    ensures BaseName(dir + "/" + name) == name
  {
    var path := dir + "/" + name;
    var i := BaseStart(path);
    assert path[|dir|] == '/';
    assert forall j :: |dir| < j < |path| ==> path[j] == name[j - |dir| - 1];
    assert i == |dir| + 1;
    assert path[|dir| + 1..] == name;
  }

  lemma RootOfDbName(region: string)
    requires region != [] && forall j :: 0 <= j < |region| ==> region[j] != '/' && region[j] != '.'
    ensures SplitExtRoot(region + ".db") == region
  {
    var name := region + ".db";
    var d := |region|;
    assert name[d] == '.' && name[d + 1] == 'd' && name[d + 2] == 'b';
    assert LastDot(name) == Some(d);
    assert !LeadingDots(name, d) by {
      assert name[0] == region[0];
    }
    assert name[..d] == region;
  }

  /** "EU.db" names the region "EU". */
  lemma RegionNameOfEuDb()
    ensures RegionName("EU.db") == "EU"
  {
    RootOfDbName("EU");
    assert "EU" + ".db" == "EU.db";
    assert BaseStart("EU.db") == 0;
  }

  /** "/data/India.db" names the region "India". */
  lemma RegionNameOfIndiaPath()
    ensures RegionName("/data/India.db") == "India"
  {
    RegionNameOfDbFile("/data", "India");
    assert "/data" + "/" + "India" + ".db" == "/data/India.db";
  }

  /** A hidden ".db" file keeps its whole name. */
  lemma RegionNameOfHiddenDb()
    ensures RegionName(".db") == ".db"
  {
    assert LastDot(".db") == Some(0);
  }

  /** The extract column of the SELECT. */
  function SelectExtract(hasContent: bool): string {
    if hasContent then "SUBSTR(content, 1, 400) AS extract" else "NULL AS extract"
  }

  /** The value `SUBSTR(content, 1, 400)` gives for a row, or NULL without a content column. */
  function ExtractOf(row: Row, hasContent: bool): (e: Option<string>)
    ensures e.Some? <==> hasContent && row.content.Some?
    ensures e.Some? ==> |e.value| <= 400 && StartsWith(row.content.value, e.value)
    ensures e.Some? && |row.content.value| <= 400 ==> e.value == row.content.value
    ensures e.Some? ==> |e.value| == if |row.content.value| <= 400 then |row.content.value| else 400
  {
    if hasContent && row.content.Some? then
      var c := row.content.value;
      Some(if |c| <= 400 then c else c[..400])
    else None
  }
}
