/**
 * The rows of the FTS5 `articles` table and the two counting queries the
 * store runs over them: `SELECT count(*) ... WHERE text IS NOT NULL` for
 * `len(db)` and `SELECT count(*) ... WHERE url=?` for the duplicate check.
 */
module Articles {
  import opened Wrappers

  /** One row of the `articles` table, its nine columns in schema order. */
  datatype Row = Row(
    title: Option<string>,
    text: Option<string>,
    hostname: string,
    url: string,
    publishDate: Option<string>,
    crawlDate: string,
    lang: Option<string>,
    enTranslation: Option<string>,
    enSummary: Option<string>)

  /** The row stored for a page that is not an article: everything but hostname, url and crawl date is NULL. */
  function Placeholder(hostname: string, url: string, crawlDate: string): Row {
    Row(None, None, hostname, url, None, crawlDate, None, None, None)
  }

  /** `SELECT count(*) FROM articles WHERE text IS NOT NULL`. */
  function CountText(rows: seq<Row>): (n: nat)
    ensures n <= |rows|
    ensures n == 0 <==> forall i :: 0 <= i < |rows| ==> rows[i].text.None?
    ensures n == |rows| <==> forall i :: 0 <= i < |rows| ==> rows[i].text.Some?
  {
    if rows == [] then 0
    else CountText(rows[..|rows| - 1]) + (if rows[|rows| - 1].text.Some? then 1 else 0)
  }

  /** Counting distributes over an append: rows added later are counted on their own. */
  lemma {:induction false} CountTextAppend(rows: seq<Row>, added: seq<Row>)
    ensures CountText(rows + added) == CountText(rows) + CountText(added)
    decreases |added|
  {
    if added == [] {
      assert rows + added == rows;
    } else {
      var init := added[..|added| - 1];
      assert (rows + added)[..|rows + added| - 1] == rows + init;
      assert (rows + added)[|rows + added| - 1] == added[|added| - 1];
      CountTextAppend(rows, init);
    }
  }

  /** `SELECT count(*) FROM articles WHERE url=?`. */
  function UrlCount(rows: seq<Row>, url: string): (n: nat)
    ensures n <= |rows|
    ensures n > 0 <==> exists i :: 0 <= i < |rows| && rows[i].url == url
  {
    if rows == [] then 0
    else
      var k := UrlCount(rows[..|rows| - 1], url);
      assert forall i :: 0 <= i < |rows| - 1 ==> rows[..|rows| - 1][i] == rows[i];
      k + (if rows[|rows| - 1].url == url then 1 else 0)
  }

  /** Rows at index `from` onwards each carry a url that no earlier row carries. */
  predicate FreshUrlsFrom(rows: seq<Row>, from: int) {
    forall i, j :: 0 <= j < i < |rows| && from <= i ==> rows[j].url != rows[i].url
  }
}
