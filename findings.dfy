/**
 * Concrete inputs on which the code as written and the model of its evident
 * intent part ways, and one on which the duplicate check lets a page in twice.
 */
module Findings {
  import opened Wrappers
  import opened Strings
  import opened Llm
  import Sorting
  import opened Articles
  import opened Crawler
  import opened Retrieval

  /** A site that answers every request with a page that is not an article. */
  function SiteOfNonArticles(): World {
    World(
      u => Fetched,
      u => Info("website", None, None, None, None, []),
      (p, t) => None,
      "2024-09-01T00:00:00")
  }

  /**
   * `add_url("https://a.com")` on an empty table: as written the NameError on
   * `info` is swallowed and nothing is stored; with `info` supplied, the
   * page is stored as one placeholder row.
   */
  lemma AddUrlAsWrittenStoresNothing()
    ensures CrawlAsWritten([], "https://a.com", false, SiteOfNonArticles().fetch) == []
    ensures Crawl([], "https://a.com", 0, false, SiteOfNonArticles())
         == [Placeholder(Netloc("https://a.com"), "https://a.com", "2024-09-01T00:00:00")]
  {
    var w := SiteOfNonArticles();
    assert IsRejected(w.extract("https://a.com"));
    RejectStoresPlaceholder([], "https://a.com", 0, false, w);
    assert [] + [Placeholder(Netloc("https://a.com"), "https://a.com", w.now)]
        == [Placeholder(Netloc("https://a.com"), "https://a.com", w.now)];
  }

  /** As written, the call never reaches the INSERT, whatever the table and the url. */
  lemma AsWrittenNeverInserts(rows: seq<Row>, url: string, allowDupes: bool, fetch: string -> FetchOutcome)
    ensures CrawlAsWritten(rows, url, allowDupes, fetch) == rows
  {
  }

  /** One dated article that matches the phrase. */
  function DatedArticle(): Row {
    Row(Some("Election"), Some("text"), "a.com", "https://a.com/e", Some("2024-09-01"),
        "2024-09-01T00:00:00", Some("en"), None, Some("summary"))
  }

  /**
   * `find_articles("election")` on a table with one matching article dated
   * today: as written, `row['publish_date']` is not among the selected
   * columns and the search raises; the model returns the article.
   */
  lemma SearchAsWrittenRaises()
    ensures SearchAsWritten([DatedArticle()], "election", 10, (q, rs, i) => Some(-2.0)) == Failure(ColumnNotSelected)
    ensures Search([DatedArticle()], "election", 10, 1.0, (q, rs, i) => Some(-2.0), d => Some(0))
         == Success([Article("https://a.com/e", Some("Election"), Some("summary"), -2.0)])
  {
    var rows := [DatedArticle()];
    var rank: RankOracle := (q, rs, i) => Some(-2.0);
    var age: AgeOracle := d => Some(0);
    var c := Candidate(DatedArticle(), -2.0);
    assert Matches(rows, Quoted("election"), rank, 0) == [];
    assert Matches(rows, Quoted("election"), rank, 1) == [c];
    SingletonSort([c], RankOf);
    assert Selected(rows, "election", 10, rank) == [c];
    var a := Article("https://a.com/e", Some("Election"), Some("summary"), -2.0);
    assert TimeBias(1.0, 0) == 1.0;
    assert Score(c, 1.0, age) == Success(a);
    assert [c][..0] == [] && [c][..1] == [c];
    ScoreAllStep([c], 0, 1.0, age);
    SingletonSort([a], DescendingKey);
    SearchUnfold(rows, "election", 10, 1.0, rank, age);
  }

  /** Sorting one element leaves it. */
  lemma SingletonSort<T>(s: seq<T>, key: T -> real)
    requires |s| == 1
    ensures Sorting.SortBy(s, key) == s
  {
    var r := Sorting.SortBy(s, key);
    assert r[0] in multiset(s);
  }

  /** A site whose one page is reachable only as "https://a.com"; "a.com" alone has no scheme. */
  function SiteNeedingScheme(): World {
    World(
      u => if u == "https://a.com" then Fetched else MissingSchema,
      u => Info("website", None, None, None, None, []),
      (p, t) => None,
      "2024-09-01T00:00:00")
  }

  /** The placeholder row stored for "https://a.com". */
  function SchemePlaceholder(): Row {
    Placeholder(Netloc("https://a.com"), "https://a.com", "2024-09-01T00:00:00")
  }

  /** While no row has the url "a.com" itself, `add_url("a.com")` appends the row for "https://a.com". */
  lemma SchemelessUrlIsStored(rows: seq<Row>)
    requires UrlCount(rows, "a.com") == 0
    ensures Crawl(rows, "a.com", 0, false, SiteNeedingScheme()) == rows + [SchemePlaceholder()]
  {
    var w := SiteNeedingScheme();
    SchemelessVisit(rows);
    CrawlSteps(rows, "a.com", 0, false, w);
    ResumeStored(rows, SchemePlaceholder(), [], 0, w);
  }

  /** The first request for "a.com" raises MissingSchema, the retry fetches a page that is not an article. */
  lemma SchemelessVisit(rows: seq<Row>)
    requires UrlCount(rows, "a.com") == 0
    ensures Visit(rows, "a.com", false, SiteNeedingScheme()) == Stored(SchemePlaceholder(), [])
  {
    var w := SiteNeedingScheme();
    assert "https://" + "a.com" == "https://a.com";
    assert w.fetch("a.com") == MissingSchema;
    assert Download("a.com", w.fetch) == Success("https://a.com");
    assert IsRejected(w.extract("https://a.com"));
    assert BuildRow("https://a.com", w.extract("https://a.com"), w) == Success(SchemePlaceholder());
  }

  /**
   * The duplicate check looks for the url as given, before the "https://"
   * retry: `add_url("a.com")` twice with `allow_dupes=False` stores
   * "https://a.com" twice.
   */
  lemma SchemeRetryDefeatsDedup()
    ensures var once := Crawl([], "a.com", 0, false, SiteNeedingScheme());
      var twice := Crawl(once, "a.com", 0, false, SiteNeedingScheme());
      |twice| == 2 && twice[0].url == twice[1].url == "https://a.com"
  {
    SchemelessUrlIsStored([]);
    var once := [] + [SchemePlaceholder()];
    assert UrlCount(once, "a.com") == 0 by {
      assert once[0].url != "a.com";
    }
    SchemelessUrlIsStored(once);
  }
}
