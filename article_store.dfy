/**
 * `ArticleDB`: the store object. Its one piece of state is the `articles`
 * table, a sequence of rows that `add_url` appends to (each INSERT is
 * committed at once) and that `__len__` and `find_articles` only read.
 */
module ArticleStore {
  import opened Wrappers
  import opened Strings
  import opened Sorting
  import opened Llm
  import opened Articles
  import opened Crawler
  import opened Retrieval

  class ArticleDB {
    var rows: seq<Row>

    /** Opens a database whose table already holds `stored` (empty for ':memory:'). */
    constructor (stored: seq<Row>)
      ensures rows == stored
    {
      rows := stored;
    }

    /** `len(db)`: the rows whose text is not NULL; placeholder rows are never counted. */
    function Len(): (n: nat)
      reads this
      ensures n <= |rows|
      ensures n == 0 <==> forall i :: 0 <= i < |rows| ==> rows[i].text.None?
      ensures n == |rows| <==> forall i :: 0 <= i < |rows| ==> rows[i].text.Some?
    {
      CountText(rows)
    }

    /**
     * `add_url`, decorated by `_catch_errors`: whatever the body raises is
     * logged and dropped, and the rows it committed before raising stay.
     */
    method AddUrl(w: World, url: string, depth: int := 0, allowDupes: bool := false)
      modifies this
      ensures rows == Crawl(old(rows), url, depth, allowDupes, w)
      decreases Budget(depth), 2
    {
      var failure := AddUrlBody(w, url, depth, allowDupes);
    }

    /** The undecorated body of `add_url`; it reports the exception that ended it before the INSERT, if any. */
    method AddUrlBody(w: World, url: string, depth: int, allowDupes: bool) returns (failure: Option<Failure>)
      modifies this
      ensures rows == Crawl(old(rows), url, depth, allowDupes, w)
      ensures failure.Some? <==> Visit(old(rows), url, allowDupes, w).Failed?
      ensures failure.Some? ==> rows == old(rows)
      decreases Budget(depth), 1
    {
      ghost var v := Visit(rows, url, allowDupes, w);
      CrawlSteps(rows, url, depth, allowDupes, w);
      if !allowDupes {
        var isDupe := UrlCount(rows, url) > 0;
        if isDupe {
          assert v == Duplicate;
          return None;
        }
      }

      var fetched := Fetch(w, url);
      if fetched.Failure? {
        assert v == Failed(fetched.error);
        return Some(fetched.error);
      }
      var target := fetched.value;
      var info := w.extract(target);
      var built := MakeRow(w, target, info);
      if built.Failure? {
        assert v == Failed(built.error);
        return Some(built.error);
      }
      var row := built.value;

      assert v == Stored(row, info.links);
      Insert(w, row, info.links, depth);
      failure := None;
    }

    /** The INSERT of the built row and, with budget left, the recursion into the page's links. */
    method Insert(w: World, row: Row, links: seq<string>, depth: int)
      modifies this
      ensures rows == Resume(old(rows), Stored(row, links), depth, w)
      decreases Budget(depth), 0
    {
      rows := rows + [row];
      if depth > 0 {
        FollowLinks(w, row.hostname, links, depth - 1);
      }
      ResumeStored(old(rows), row, links, depth, w);
    }

    /** `requests.get(url)`, retried once with 'https://' in front when the url has no scheme. */
    method Fetch(w: World, url: string) returns (r: Result<string, Failure>)
      ensures r == Download(url, w.fetch)
    {
      var target := url;
      var response := w.fetch(target);
      if response == MissingSchema {
        target := "https://" + target;
        response := w.fetch(target);
      }
      if response != Fetched {
        return Failure(RequestFailed);
      }
      return Success(target);
    }

    /** The rejection test and, for a genuine article, the LLM enrichment, giving the row to INSERT. */
    method MakeRow(w: World, target: string, info: Info) returns (r: Result<Row, Failure>)
      ensures r == BuildRow(target, info, w)
    {
      var hostname := Netloc(target);
      var rejected: bool;
      if info.kind != "article" {
        rejected := true;
      } else if info.text.None? {
        return Failure(TextNotString);
      } else {
        rejected := |info.text.value| < MinTextLength;
      }

      if rejected {
        return Success(Placeholder(hostname, target, w.now));
      }
      if info.language.None? {
        return Failure(LanguageNotString);
      }
      var enTranslation: Option<string> := None;
      if !StartsWith(info.language.value, "en") {
        enTranslation := TranslateText(w.llm, info.text.value);
        if enTranslation.None? {
          return Failure(LlmFailed);
        }
      }
      var enSummary := SummarizeText(w.llm, info.text.value);
      if enSummary.None? {
        return Failure(LlmFailed);
      }
      return Success(Row(info.title, info.text, hostname, target, info.published, w.now, info.language,
                         enTranslation, enSummary));
    }

    /** The `for link in info['links.all']` loop: `add_url(url2, depth)` for each same-site link. */
    method FollowLinks(w: World, hostname: string, links: seq<string>, depth: nat)
      modifies this
      ensures rows == CrawlLinks(old(rows), hostname, links, depth, w)
      decreases depth, 3
    {
      for i := 0 to |links|
        invariant rows == CrawlLinks(old(rows), hostname, links[..i], depth, w)
      {
        var url2 := links[i];
        var hostname2 := Netloc(url2);
        assert links[..i + 1][..i] == links[..i];
        if SameSite(hostname, hostname2) {
          AddUrl(w, url2, depth);
        }
      }
      assert links[..|links|] == links;
    }

    /**
     * `find_articles(query, limit, timebias_alpha)`: the top `limit` matches by
     * native rank, each scored with the time bias, then sorted by final rank,
     * largest first; or the exception the scoring loop raised.
     */
    method FindArticles(rank: RankOracle, age: AgeOracle, query: string, limit: int := 10, alpha: real := 1.0)
      returns (r: Result<seq<Article>, SearchError>)
      ensures r == Search(rows, query, limit, alpha, rank, age)
    {
      var formatted := Quoted(query);
      var selected := TopRows(Matches(rows, formatted, rank, |rows|), limit);
      assert selected == Selected(rows, query, limit, rank);
      SearchUnfold(rows, query, limit, alpha, rank, age);

      var articles: seq<Article> := [];
      for i := 0 to |selected|
        invariant ScoreAll(selected[..i], alpha, age) == Success(articles)
      {
        ScoreAllStep(selected, i, alpha, age);
        var row := selected[i].row;
        if row.publishDate.None? {
          ScoreAllFailureSticks(selected, i + 1, alpha, age);
          return Failure(PublishDateMissing);
        }
        var days := age(row.publishDate.value);
        assert selected[i].row.publishDate == Some(row.publishDate.value);
        assert age(selected[i].row.publishDate.value) == days;
        if days.None? {
          ScoreAllFailureSticks(selected, i + 1, alpha, age);
          return Failure(PublishDateInvalid);
        }
        if days.value as real + alpha == 0.0 {
          ScoreAllFailureSticks(selected, i + 1, alpha, age);
          return Failure(ZeroDivision);
        }
        var timeBias := TimeBias(alpha, days.value);
        var article := Scored(selected[i], timeBias);
        assert Score(selected[i], alpha, age) == Success(article);
        articles := articles + [article];
      }
      assert selected[..|selected|] == selected;

      articles := SortByFinalRank(articles);
      return Success(articles);
    }
  }
}
