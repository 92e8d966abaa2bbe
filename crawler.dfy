/**
 * What one call of `ArticleDB.add_url` does to the table, as a function of
 * the table before the call: the duplicate check, the download with its
 * "https://" retry, the reject (placeholder) or enrich branch, the single
 * INSERT, and the depth-bounded recursion into same-site links. Every child
 * call is itself wrapped by `_catch_errors`, so a failure anywhere in it
 * leaves the table as the failure found it and the crawl moves on.
 */
module Crawler {
  import opened Wrappers
  import opened Strings
  import opened Llm
  import opened Articles

  /** The outcome of `requests.get(url)`: a response, `MissingSchema`, or any other request exception. */
  datatype FetchOutcome = Fetched | MissingSchema | FetchFailed

  /**
   * What the page-to-article extractor reports for a page: `info['type']`,
   * `info['title']`, `info['content']['text']`, `info['language']`,
   * `info['timestamp.published']['lo']` and the hrefs of `info['links.all']`.
   */
  datatype Info = Info(
    kind: string,
    title: Option<string>,
    text: Option<string>,
    language: Option<string>,
    published: Option<string>,
    links: seq<string>)

  /**
   * Everything outside the store that a crawl consults: the network, the
   * extractor (keyed by the URL that was finally fetched), the completion
   * gateway and the crawl timestamp.
   */
  datatype World = World(
    fetch: string -> FetchOutcome,
    extract: string -> Info,
    llm: Gateway,
    now: string)

  /** The exceptions that end one `add_url` call before its INSERT. */
  datatype Failure =
    | RequestFailed      // requests.get raised (after the scheme retry, if any)
    | TextNotString      // len(None): an 'article' without text
    | LanguageNotString  // None.startswith: an article without a language
    | LlmFailed          // translate_text or summarize_text raised
    | InfoUndefined      // NameError: the extractor call is commented out

  /** What one call decides before recursing: skip a duplicate, fail, or store a row and follow its links. */
  datatype Step = Duplicate | Failed(reason: Failure) | Stored(row: Row, links: seq<string>)

  /** Pages shorter than this are stored as placeholders. */
  const MinTextLength: nat := 100

  /** The reject test `info['type'] != 'article' or len(text) < 100`, on the inputs where it does not raise. */
  predicate IsRejected(info: Info) {
    info.kind != "article" || (info.text.Some? && |info.text.value| < MinTextLength)
  }

  /** A genuine article: the enrich branch is taken. */
  predicate IsGenuine(info: Info) {
    info.kind == "article" && info.text.Some? && |info.text.value| >= MinTextLength
  }

  /**
   * `requests.get(url)`, and on `MissingSchema` one more `requests.get` of
   * "https://" + url: the URL that was fetched, or the exception.
   */
  function Download(url: string, fetch: string -> FetchOutcome): (r: Result<string, Failure>)
  {
    match fetch(url)
    case Fetched => Success(url)
    case FetchFailed => Failure(RequestFailed)
    case MissingSchema =>
      var retried := "https://" + url;
      if fetch(retried).Fetched? then Success(retried) else Failure(RequestFailed)
  }

  /** The row the INSERT stores for the fetched `url`, or the exception raised while building it. */
  function BuildRow(url: string, info: Info, w: World): (r: Result<Row, Failure>)
    ensures r.Success? ==> r.value.url == url && r.value.hostname == Netloc(url) && r.value.crawlDate == w.now
    ensures IsRejected(info) ==> r == Success(Placeholder(Netloc(url), url, w.now))
    ensures r.Failure? ==> info.kind == "article" && !IsRejected(info)
    ensures r.Success? && !IsRejected(info) ==>
      && IsGenuine(info) && info.language.Some?
      && r.value.title == info.title && r.value.text == info.text
      && r.value.publishDate == info.published && r.value.lang == info.language
      && (r.value.enTranslation.Some? <==> !StartsWith(info.language.value, "en"))
      && r.value.enSummary.Some?
    ensures r.Success? ==> (r.value.text.Some? <==> IsGenuine(info))
  {
    var hostname := Netloc(url);
    if info.kind != "article" then Success(Placeholder(hostname, url, w.now))
    else if info.text.None? then Failure(TextNotString)
    else if |info.text.value| < MinTextLength then Success(Placeholder(hostname, url, w.now))
    else if info.language.None? then Failure(LanguageNotString)
    else
      var text := info.text.value;
      var translation :-
        if StartsWith(info.language.value, "en") then Success(None)
        else match TranslateText(w.llm, text)
          case None => Failure(LlmFailed)
          case Some(t) => Success(Some(t));
      var summary :-
        match SummarizeText(w.llm, text)
        case None => Failure(LlmFailed)
        case Some(s) => Success(s);
      Success(Row(info.title, info.text, hostname, url, info.published, w.now, info.language,
                  translation, Some(summary)))
  }

  /**
   * Exactly which pages raise while the row is built: an 'article' without
   * text, and a genuine article without a language or whose translation (when
   * one is needed) or summary call raises. A genuine article that does not
   * raise gets the summary, and the translation unless its language code
   * starts with "en".
   */
  lemma BuildRowOutcome(url: string, info: Info, w: World)
    ensures BuildRow(url, info, w) == Failure(TextNotString) <==> info.kind == "article" && info.text.None?
    ensures BuildRow(url, info, w).Failure? <==>
      info.kind == "article"
      && (info.text.None?
          || (IsGenuine(info)
              && (info.language.None?
                  || (!StartsWith(info.language.value, "en") && TranslateText(w.llm, info.text.value).None?)
                  || SummarizeText(w.llm, info.text.value).None?)))
    ensures BuildRow(url, info, w).Success? && IsGenuine(info) ==>
      && BuildRow(url, info, w).value.enSummary == SummarizeText(w.llm, info.text.value)
      && BuildRow(url, info, w).value.enTranslation
         == if StartsWith(info.language.value, "en") then None else TranslateText(w.llm, info.text.value)
  {
  }

  /** The body of `add_url` up to and including the INSERT. */
  function Visit(rows: seq<Row>, url: string, allowDupes: bool, w: World): (v: Step)
  {
    if !allowDupes && UrlCount(rows, url) > 0 then Duplicate
    else match Download(url, w.fetch)
      case Failure(e) => Failed(e)
      case Success(fetched) =>
        var info := w.extract(fetched);
        match BuildRow(fetched, info, w)
        case Failure(e) => Failed(e)
        case Success(row) => Stored(row, info.links)
  }

  /** The recursion budget: `recursive_depth`, or 0 when it is not positive. */
  function Budget(depth: int): nat {
    if depth > 0 then depth else 0
  }

  /** The table after `add_url(url, depth, allowDupes)` returns (through `_catch_errors`). */
  function Crawl(rows: seq<Row>, url: string, depth: int, allowDupes: bool, w: World): seq<Row>
    decreases Budget(depth), 0, 1
  {
    Resume(rows, Visit(rows, url, allowDupes, w), depth, w)
  }

  /**
   * The rest of the call once the step is decided: a duplicate or a swallowed
   * failure leaves the table; a stored row is appended and, with budget left,
   * its links are followed.
   */
  function Resume(rows: seq<Row>, v: Step, depth: int, w: World): seq<Row>
    decreases Budget(depth), 0, 0
  {
    match v
    case Duplicate => rows
    case Failed(_) => rows
    case Stored(row, links) =>
      if depth > 0 then CrawlLinks(rows + [row], row.hostname, links, depth - 1, w)
      else rows + [row]
  }

  /**
   * The table after the `for link in info['links.all']` loop: each same-site
   * link, in order, gets `add_url(url2, depth)` with `allow_dupes` left False.
   */
  function CrawlLinks(rows: seq<Row>, hostname: string, links: seq<string>, depth: nat, w: World): seq<Row>
    decreases depth, 1, |links|
  {
    if links == [] then rows
    else
      var before := CrawlLinks(rows, hostname, links[..|links| - 1], depth, w);
      var url2 := links[|links| - 1];
      if SameSite(hostname, Netloc(url2)) then Crawl(before, url2, depth, false, w) else before
  }

  /**
   * The call as the code is written: the extractor lines are commented out, so
   * every call that gets past the download raises NameError on `info`.
   */
  function VisitAsWritten(rows: seq<Row>, url: string, allowDupes: bool, fetch: string -> FetchOutcome): (v: Step)
    ensures !v.Stored?
  {
    if !allowDupes && UrlCount(rows, url) > 0 then Duplicate
    else match Download(url, fetch)
      case Failure(e) => Failed(e)
      case Success(_) => Failed(InfoUndefined)
  }

  /** The table after the call as written: the NameError is swallowed, so nothing is ever inserted. */
  function CrawlAsWritten(rows: seq<Row>, url: string, allowDupes: bool, fetch: string -> FetchOutcome): seq<Row>
  {
    match VisitAsWritten(rows, url, allowDupes, fetch)
    case Stored(row, _) => rows + [row]
    case _ => rows
  }

  // ---------------------------------------------------------------------------
  // Properties of a crawl
  // ---------------------------------------------------------------------------

  /** A crawl only appends: the rows present before the call are kept, unchanged and in place. */
  lemma CrawlAppends(rows: seq<Row>, url: string, depth: int, allowDupes: bool, w: World)
    ensures |rows| <= |Crawl(rows, url, depth, allowDupes, w)|
    ensures Crawl(rows, url, depth, allowDupes, w)[..|rows|] == rows
  {
    ResumeAppends(rows, Visit(rows, url, allowDupes, w), depth, w);
  }

  lemma {:induction false} ResumeAppends(rows: seq<Row>, v: Step, depth: int, w: World)
    ensures |rows| <= |Resume(rows, v, depth, w)|
    ensures Resume(rows, v, depth, w)[..|rows|] == rows
    decreases Budget(depth), 0, 0, 0
  {
    match v
    case Stored(row, links) =>
      ResumeStored(rows, row, links, depth, w);
      if depth > 0 {
        FollowedLinksAppend(rows, row, links, depth - 1, w);
      } else {
        assert (rows + [row])[..|rows|] == rows;
      }
    case _ =>
  }

  /** Following the links of a stored row keeps the rows before it. */
  lemma {:induction false} FollowedLinksAppend(rows: seq<Row>, row: Row, links: seq<string>, depth: nat, w: World)
    ensures |rows| <= |CrawlLinks(rows + [row], row.hostname, links, depth, w)|
    ensures CrawlLinks(rows + [row], row.hostname, links, depth, w)[..|rows|] == rows
    decreases depth, 1, |links|, 1
  {
    var stored := rows + [row];
    CrawlLinksAppends(stored, row.hostname, links, depth, w);
    var r := CrawlLinks(stored, row.hostname, links, depth, w);
    assert r[..|rows|] == r[..|stored|][..|rows|];
  }

  lemma {:induction false} CrawlLinksAppends(rows: seq<Row>, hostname: string, links: seq<string>, depth: nat, w: World)
    ensures |rows| <= |CrawlLinks(rows, hostname, links, depth, w)|
    ensures CrawlLinks(rows, hostname, links, depth, w)[..|rows|] == rows
    decreases depth, 1, |links|, 0
  {
    if links != [] {
      var before := CrawlLinks(rows, hostname, links[..|links| - 1], depth, w);
      CrawlLinksAppends(rows, hostname, links[..|links| - 1], depth, w);
      var url2 := links[|links| - 1];
      if SameSite(hostname, Netloc(url2)) {
        ResumeAppends(before, Visit(before, url2, false, w), depth, w);
        var r := Crawl(before, url2, depth, false, w);
        assert r[..|rows|] == r[..|before|][..|rows|];
      }
    }
  }

  /** With duplicates disallowed, a url that is already stored leaves the table as it was. */
  lemma DuplicateLeavesTable(rows: seq<Row>, url: string, depth: int, w: World, i: nat)
    requires i < |rows| && rows[i].url == url
    ensures Crawl(rows, url, depth, false, w) == rows
  {
  }

  /**
   * A page that is not an article, or whose text is under 100 characters, is
   * stored as one placeholder row; with no recursion budget nothing else is
   * stored, so the row count grows by one and `len` does not change.
   */
  lemma RejectStoresPlaceholder(rows: seq<Row>, url: string, depth: int, allowDupes: bool, w: World)
    requires allowDupes || UrlCount(rows, url) == 0
    requires w.fetch(url) == Fetched && IsRejected(w.extract(url))
    requires depth <= 0
    ensures Crawl(rows, url, depth, allowDupes, w) == rows + [Placeholder(Netloc(url), url, w.now)]
    ensures |Crawl(rows, url, depth, allowDupes, w)| == |rows| + 1
    ensures CountText(Crawl(rows, url, depth, allowDupes, w)) == CountText(rows)
  {
    var p := Placeholder(Netloc(url), url, w.now);
    CountTextAppend(rows, [p]);
    assert CountText([p]) == 0;
  }

  /**
   * The placeholder branch does not stop the crawl: with budget left, the
   * links the extractor reported are still followed from the placeholder row.
   */
  lemma RejectStillRecurses(rows: seq<Row>, url: string, depth: int, allowDupes: bool, w: World)
    requires allowDupes || UrlCount(rows, url) == 0
    requires w.fetch(url) == Fetched && IsRejected(w.extract(url))
    requires depth > 0
    ensures Crawl(rows, url, depth, allowDupes, w)
         == CrawlLinks(rows + [Placeholder(Netloc(url), url, w.now)], Netloc(url), w.extract(url).links, depth - 1, w)
  {
  }

  /**
   * A genuine article whose language is known and whose LLM calls answer is
   * stored: with no recursion budget the crawl appends exactly its row. The
   * row keeps the text and language, holds the summary, and holds a
   * translation exactly when the language code does not start with "en".
   * Its text makes `len` one higher.
   */
  lemma EnrichStoresArticle(rows: seq<Row>, url: string, depth: int, allowDupes: bool, w: World)
    requires allowDupes || UrlCount(rows, url) == 0
    requires w.fetch(url) == Fetched && depth <= 0
    requires IsGenuine(w.extract(url)) && w.extract(url).language.Some?
    requires SummarizeText(w.llm, w.extract(url).text.value).Some?
    requires StartsWith(w.extract(url).language.value, "en") || TranslateText(w.llm, w.extract(url).text.value).Some?
    ensures var r := Crawl(rows, url, depth, allowDupes, w);
      && |r| == |rows| + 1 && r[..|rows|] == rows
      && r[|rows|].url == url && r[|rows|].hostname == Netloc(url)
      && r[|rows|].text == w.extract(url).text && r[|rows|].lang == w.extract(url).language
      && r[|rows|].enSummary == SummarizeText(w.llm, w.extract(url).text.value)
      && (r[|rows|].enTranslation.Some? <==> !StartsWith(w.extract(url).language.value, "en"))
      && CountText(r) == CountText(rows) + 1
  {
    var info := w.extract(url);
    BuildRowOutcome(url, info, w);
    var row := BuildRow(url, info, w).value;
    EnrichVisit(rows, url, allowDupes, w);
    CrawlSteps(rows, url, depth, allowDupes, w);
    ResumeStored(rows, row, info.links, depth, w);
    CountTextAppend(rows, [row]);
    assert CountText([row]) == 1 by {
      assert [row][..0] == [];
    }
    assert (rows + [row])[..|rows|] == rows;
  }

  /**
   * At any depth the enriched row is appended before any link is followed:
   * the table after the call starts with the old rows and then that row, and
   * with budget left the links are crawled from that table.
   */
  lemma EnrichStoredBeforeLinks(rows: seq<Row>, url: string, depth: int, allowDupes: bool, w: World)
    requires allowDupes || UrlCount(rows, url) == 0
    requires w.fetch(url) == Fetched
    requires IsGenuine(w.extract(url)) && w.extract(url).language.Some?
    requires SummarizeText(w.llm, w.extract(url).text.value).Some?
    requires StartsWith(w.extract(url).language.value, "en") || TranslateText(w.llm, w.extract(url).text.value).Some?
    ensures BuildRow(url, w.extract(url), w).Success?
    ensures var r := Crawl(rows, url, depth, allowDupes, w);
      && |rows| + 1 <= |r| && r[..|rows| + 1] == rows + [BuildRow(url, w.extract(url), w).value]
    ensures depth > 0 ==>
      Crawl(rows, url, depth, allowDupes, w)
        == CrawlLinks(rows + [BuildRow(url, w.extract(url), w).value], Netloc(url), w.extract(url).links, depth - 1, w)
  {
    EnrichVisit(rows, url, allowDupes, w);
    var row := BuildRow(url, w.extract(url), w).value;
    CrawlSteps(rows, url, depth, allowDupes, w);
    ResumeStored(rows, row, w.extract(url).links, depth, w);
    StoredRowComesFirst(rows, row, w.extract(url).links, depth, w);
  }

  /** A stored row is appended to the table before its links are followed. */
  lemma StoredRowComesFirst(rows: seq<Row>, row: Row, links: seq<string>, depth: int, w: World)
    ensures var r := Resume(rows, Stored(row, links), depth, w);
      |rows| + 1 <= |r| && r[..|rows| + 1] == rows + [row]
  {
    ResumeStored(rows, row, links, depth, w);
    if depth > 0 {
      CrawlLinksAppends(rows + [row], row.hostname, links, depth - 1, w);
    }
  }

  /** The step for such an article stores the row that `BuildRow` builds for it. */
  lemma EnrichVisit(rows: seq<Row>, url: string, allowDupes: bool, w: World)
    requires allowDupes || UrlCount(rows, url) == 0
    requires w.fetch(url) == Fetched
    requires IsGenuine(w.extract(url)) && w.extract(url).language.Some?
    requires SummarizeText(w.llm, w.extract(url).text.value).Some?
    requires StartsWith(w.extract(url).language.value, "en") || TranslateText(w.llm, w.extract(url).text.value).Some?
    ensures BuildRow(url, w.extract(url), w).Success?
    ensures Visit(rows, url, allowDupes, w) == Stored(BuildRow(url, w.extract(url), w).value, w.extract(url).links)
  {
    BuildRowOutcome(url, w.extract(url), w);
    assert Download(url, w.fetch) == Success(url);
  }

  /**
   * When the first request raises MissingSchema, the url that is stored is
   * "https://" + url, and the stored hostname is that url's netloc: the
   * longest prefix of `url` free of '/', '?' and '#'.
   */
  lemma SchemeRetryStoresPrefixedUrl(rows: seq<Row>, url: string, allowDupes: bool, w: World)
    requires w.fetch(url) == MissingSchema
    requires Visit(rows, url, allowDupes, w).Stored?
    ensures Visit(rows, url, allowDupes, w).row.url == "https://" + url
    ensures Visit(rows, url, allowDupes, w).row.hostname == url[..NetlocEnd(url)]
  {
    HttpsNetloc(url);
  }

  /** A failing child is swallowed: the siblings before it keep their rows and the loop carries on. */
  lemma FailedChildIsSkipped(rows: seq<Row>, hostname: string, links: seq<string>, url2: string, depth: nat, w: World)
    requires Visit(CrawlLinks(rows, hostname, links, depth, w), url2, false, w).Failed?
    ensures CrawlLinks(rows, hostname, links + [url2], depth, w) == CrawlLinks(rows, hostname, links, depth, w)
  {
    assert (links + [url2])[..|links|] == links;
    var before := CrawlLinks(rows, hostname, links, depth, w);
    assert Crawl(before, url2, depth, false, w) == before;
  }

  /** A link whose netloc fails the same-site test is passed over: the table stays as the earlier links left it. */
  lemma OffSiteLinkSkipped(rows: seq<Row>, hostname: string, links: seq<string>, url2: string, depth: nat, w: World)
    requires !SameSite(hostname, Netloc(url2))
    ensures CrawlLinks(rows, hostname, links + [url2], depth, w) == CrawlLinks(rows, hostname, links, depth, w)
  {
    assert (links + [url2])[..|links|] == links;
  }

  /**
   * A same-site link gets its own `add_url(url2, recursive_depth - 1)` with
   * `allow_dupes` left False, applied to the table the earlier links left.
   */
  lemma SameSiteLinkCrawled(rows: seq<Row>, hostname: string, links: seq<string>, url2: string, depth: nat, w: World)
    requires SameSite(hostname, Netloc(url2))
    ensures CrawlLinks(rows, hostname, links + [url2], depth, w)
         == Crawl(CrawlLinks(rows, hostname, links, depth, w), url2, depth, false, w)
  {
    assert (links + [url2])[..|links|] == links;
  }

  /** A stored step carries the fetched url and the links the extractor reported for it. */
  lemma StoredStep(rows: seq<Row>, url: string, allowDupes: bool, w: World)
    requires Visit(rows, url, allowDupes, w).Stored?
    ensures Download(url, w.fetch).Success?
    ensures Visit(rows, url, allowDupes, w).row.url == Download(url, w.fetch).value
    ensures Visit(rows, url, allowDupes, w).links == w.extract(Download(url, w.fetch).value).links
    ensures allowDupes || UrlCount(rows, url) == 0
  {
  }

  /** A crawl is its first step followed by the rest of the call. */
  lemma CrawlSteps(rows: seq<Row>, url: string, depth: int, allowDupes: bool, w: World)
    ensures Crawl(rows, url, depth, allowDupes, w) == Resume(rows, Visit(rows, url, allowDupes, w), depth, w)
  {
  }

  /** What the rest of the call does once a row is stored. */
  lemma ResumeStored(rows: seq<Row>, row: Row, links: seq<string>, depth: int, w: World)
    ensures Resume(rows, Stored(row, links), depth, w)
         == if depth > 0 then CrawlLinks(rows + [row], row.hostname, links, depth - 1, w) else rows + [row]
  {
  }

  /** The number of pages a crawl can visit when no page has more than `fanout` links. */
  function TreeSize(fanout: nat, depth: int): (n: nat)
    ensures n >= 1
    decreases Budget(depth)
  {
    if depth <= 0 then 1 else 1 + fanout * TreeSize(fanout, depth - 1)
  }

  lemma MulSucc(a: nat, c: nat)
    ensures (a + 1) * c == a * c + c
  {
  }

  lemma MulMono(a: nat, b: nat, c: nat)
    requires a <= b
    ensures a * c <= b * c
  {
  }

  /**
   * The crawl terminates with a bounded table: no more than
   * 1 + fanout + fanout^2 + ... + fanout^depth rows are added.
   */
  lemma CrawlBounded(rows: seq<Row>, url: string, depth: int, allowDupes: bool, w: World, fanout: nat)
    requires forall u :: |w.extract(u).links| <= fanout
    ensures |Crawl(rows, url, depth, allowDupes, w)| <= |rows| + TreeSize(fanout, depth)
    decreases Budget(depth), 0, 1, 0
  {
    var v := Visit(rows, url, allowDupes, w);
    if v.Stored? {
      StoredStep(rows, url, allowDupes, w);
    }
    ResumeBounded(rows, v, depth, w, fanout);
  }

  lemma {:induction false} ResumeBounded(rows: seq<Row>, v: Step, depth: int, w: World, fanout: nat)
    requires forall u :: |w.extract(u).links| <= fanout
    requires v.Stored? ==> |v.links| <= fanout
    ensures |Resume(rows, v, depth, w)| <= |rows| + TreeSize(fanout, depth)
    decreases Budget(depth), 0, 0, 0
  {
    if v.Stored? && depth > 0 {
      var sub := TreeSize(fanout, depth - 1);
      assert TreeSize(fanout, depth) == 1 + fanout * sub;
      assert Resume(rows, v, depth, w) == CrawlLinks(rows + [v.row], v.row.hostname, v.links, depth - 1, w);
      CrawlLinksBounded(rows + [v.row], v.row.hostname, v.links, depth - 1, w, fanout);
      MulMono(|v.links|, fanout, sub);
    }
  }

  lemma {:induction false} CrawlLinksBounded(rows: seq<Row>, hostname: string, links: seq<string>, depth: nat, w: World, fanout: nat)
    requires forall u :: |w.extract(u).links| <= fanout
    ensures |CrawlLinks(rows, hostname, links, depth, w)| <= |rows| + |links| * TreeSize(fanout, depth)
    decreases depth, 1, |links|, 1
  {
    if links != [] {
      var init := links[..|links| - 1];
      CrawlLinksBounded(rows, hostname, init, depth, w, fanout);
      LastLinkBounded(rows, hostname, links, depth, w, fanout);
      MulSucc(|init|, TreeSize(fanout, depth));
    }
  }

  /** The last link of the loop adds at most one subtree. */
  lemma {:induction false} LastLinkBounded(rows: seq<Row>, hostname: string, links: seq<string>, depth: nat, w: World, fanout: nat)
    requires forall u :: |w.extract(u).links| <= fanout
    requires links != []
    ensures |CrawlLinks(rows, hostname, links, depth, w)|
         <= |CrawlLinks(rows, hostname, links[..|links| - 1], depth, w)| + TreeSize(fanout, depth)
    decreases depth, 1, |links|, 0
  {
    var before := CrawlLinks(rows, hostname, links[..|links| - 1], depth, w);
    var url2 := links[|links| - 1];
    if SameSite(hostname, Netloc(url2)) {
      CrawlBounded(before, url2, depth, false, w, fanout);
    }
  }

  /**
   * Child calls always run the duplicate check: when no request raises
   * MissingSchema, every row a crawl adds after its first carries a url not
   * stored before it, and with duplicates disallowed the first one does too.
   */
  lemma CrawlAddsFreshUrls(rows: seq<Row>, url: string, depth: int, allowDupes: bool, w: World)
    requires forall u :: w.fetch(u) != MissingSchema
    ensures FreshUrlsFrom(Crawl(rows, url, depth, allowDupes, w), if allowDupes then |rows| + 1 else |rows|)
    decreases Budget(depth), 0, 1, 0
  {
    var v := Visit(rows, url, allowDupes, w);
    var from := if allowDupes then |rows| + 1 else |rows|;
    if v.Stored? {
      StoredStep(rows, url, allowDupes, w);
      assert v.row.url == url;
      if !allowDupes {
        assert forall j :: 0 <= j < |rows| ==> rows[j].url != url;
      }
      assert FreshUrlsFrom(rows + [v.row], from);
    }
    ResumeFresh(rows, v, depth, w, from);
  }

  lemma {:induction false} ResumeFresh(rows: seq<Row>, v: Step, depth: int, w: World, from: int)
    requires forall u :: w.fetch(u) != MissingSchema
    requires |rows| <= from <= |rows| + 1
    requires v.Stored? ==> FreshUrlsFrom(rows + [v.row], from)
    ensures FreshUrlsFrom(Resume(rows, v, depth, w), from)
    decreases Budget(depth), 0, 0, 0
  {
    if v.Stored? && depth > 0 {
      FollowedLinksFresh(rows + [v.row], v.row.hostname, v.links, depth - 1, w, from);
    }
  }

  /** Following the links of a freshly stored row keeps the table fresh from `from`. */
  lemma FollowedLinksFresh(stored: seq<Row>, hostname: string, links: seq<string>, depth: nat, w: World, from: int)
    requires forall u :: w.fetch(u) != MissingSchema
    requires from <= |stored| && FreshUrlsFrom(stored, from)
    ensures FreshUrlsFrom(CrawlLinks(stored, hostname, links, depth, w), from)
    decreases depth, 1, |links|, 1
  {
    CrawlLinksAddsFreshUrls(stored, hostname, links, depth, w);
    CrawlLinksAppends(stored, hostname, links, depth, w);
    FreshUrlsCombine(stored, CrawlLinks(stored, hostname, links, depth, w), from);
  }

  lemma {:induction false} CrawlLinksAddsFreshUrls(rows: seq<Row>, hostname: string, links: seq<string>, depth: nat, w: World)
    requires forall u :: w.fetch(u) != MissingSchema
    ensures FreshUrlsFrom(CrawlLinks(rows, hostname, links, depth, w), |rows|)
    decreases depth, 1, |links|, 0
  {
    if links != [] {
      var init := links[..|links| - 1];
      var before := CrawlLinks(rows, hostname, init, depth, w);
      CrawlLinksAddsFreshUrls(rows, hostname, init, depth, w);
      CrawlLinksAppends(rows, hostname, init, depth, w);
      var url2 := links[|links| - 1];
      if SameSite(hostname, Netloc(url2)) {
        CrawlAddsFreshUrls(before, url2, depth, false, w);
        CrawlAppends(before, url2, depth, false, w);
        FreshUrlsCombine(before, Crawl(before, url2, depth, false, w), |rows|);
      }
    }
  }

  /** If `r` extends `p` freshly from |p|, and `p` is fresh from `from`, then `r` is fresh from `from`. */
  lemma FreshUrlsCombine(p: seq<Row>, r: seq<Row>, from: int)
    requires |p| <= |r| && r[..|p|] == p
    requires FreshUrlsFrom(p, from) && FreshUrlsFrom(r, |p|) && from <= |p|
    ensures FreshUrlsFrom(r, from)
  {
    forall i, j | 0 <= j < i < |r| && from <= i ensures r[j].url != r[i].url {
      if i < |p| {
        assert r[i] == p[i] && r[j] == p[j];
      }
    }
  }
}
