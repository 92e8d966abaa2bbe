# RAGNews in Dafny

A model of the core of RAGNews, a small retrieval augmented generation
system for news, with proofs about what the model does. RAGNews crawls news pages into an SQLite FTS5
table (`ArticleDB.add_url`) and counts the stored articles (`len(db)`). It
ranks matches by full-text rank scaled by a recency bias (`find_articles`).
It answers a question by extracting keywords, searching with them and
prompting a language model with the hits (`rag`). An evaluation script
runs `rag` over masked texts (`RAGClassifier.predict`) and scores the
answers (`compute_accuracy`).

Modules, in dependency order:

- `Wrappers`: `Option` and `Result`.
- `Strings`: the Python string operations the core uses.
  - `a in b`, `startswith`, `find`.
  - `"\n".join`. The program never splits; `Split` is there only to state
    that a join can be undone.
  - The `netloc` that `urllib.parse.urlparse` splits off a URL.
- `Sorting`: a stable insertion sort by a real key. It stands for the SQL
  `ORDER BY rank` and for `list.sort(key=..., reverse=True)`.
- `Llm`: the completion gateway `run_llm` and the four system prompts sent
  through it.
- `Articles`: the nine-column row of the `articles` table and its two
  counting queries.
- `Crawler`: what one `add_url` call does to the table, as a function of
  the table before the call. The key functions are:
  - `Visit`: the body up to the INSERT;
  - `Crawl`, `Resume` and `CrawlLinks`: the `_catch_errors` wrapper and the
    recursion into same-site links.
- `Retrieval`: what `find_articles` returns (`Search`). It is built from:
  - the MATCH on the quoted query;
  - `ORDER BY rank LIMIT ?` (`TopRows`);
  - the scoring loop (`ScoreAll`, with `TimeBias`);
  - the final sort (`SortByFinalRank`).
- `ArticleStore`: the class `ArticleDB`. Its table is a field
  `rows: seq<Row>`:
  - `AddUrl` appends to it, through `AddUrlBody`, `Fetch`, `MakeRow`,
    `Insert` and the `FollowLinks` loop;
  - `FindArticles` runs the scoring loop over it;
  - `Len` counts it.
  Each method is proved against the function of `Crawler` or `Retrieval`
  that specifies it.
- `Rag`: prompt assembly and `rag`, as a method and as the function
  `RagAnswer`.
- `Evaluate`: `RAGClassifier.predict` and `compute_accuracy`.
- `Findings`: concrete inputs on which the code as written goes wrong.

Everything outside the program is a parameter:

- the network is `World.fetch`;
- the HTML extractor is `World.extract`;
- the Groq service is a `Gateway`, where `None` stands for an API call that raised;
- `datetime.now()` is `World.now`;
- FTS5 matching and the bm25 rank are a `RankOracle`;
- `fromisoformat` with the age in days is an `AgeOracle`.

Behaviours of the code that a reader might not expect, all modelled as the
code has them:

- The reject branch of `add_url` stores a placeholder row and then still
  follows the page's links when depth is left (`RejectStillRecurses`).
- Placeholder rows are not excluded from search. A selected row without a
  publish date makes `fromisoformat(None)` raise, so the whole search fails
  (`SuccessMeansDatedRows`). A missing date is never read as "old".
- `LIMIT` is applied on the native rank before the time bias
  (`LimitByNativeRank`), not to the biased scores.
- The final sort is descending on `rank * time_bias`. With bm25's negative
  ranks this puts older articles first (`NegativeRankFavoursOlder`).
- The duplicate check looks up the URL as given, before the "https://"
  retry (`SchemeRetryDefeatsDedup`).
- `compute_accuracy` compares the answer string with the decoded `masks`
  value. Masks stored as a JSON list therefore never match
  (`ListMasksNeverMatch`).

## Model

| member | source | states |
|---|---|---|
| Strings.Contains | ragnews/__init__.py:367 | `a in b` holds exactly when `b` has a contiguous occurrence of `a` at some index |
| Strings.Find | ragnews/__init__.py:318-319 | the first index of the character, with no earlier occurrence, or -1 exactly when the character is absent |
| Strings.NetlocEnd | ragnews/__init__.py:318-319 | the netloc ends at the first '/', '?' or '#', or at the end of the string |
| Strings.Netloc | ragnews/__init__.py:318-319 | a netloc never holds '/', '?' or '#' |
| Strings.HttpsNetloc | ragnews/__init__.py:316-319 | the hostname of "https://" + url is the longest delimiter-free prefix of url |
| Strings.SchemelessNetloc | ragnews/__init__.py:364-366 | a link with no ':' and no leading "//" has an empty netloc |
| Strings.SameSite | ragnews/__init__.py:367 | `hostname in hostname2 or hostname2 in hostname`, through `Contains`; `EmptyHostIsSameSite` states its relative-link case |
| Strings.EmptyHostIsSameSite | ragnews/__init__.py:367 | the empty netloc of a relative link passes the same-site test for every hostname |
| Strings.Join | ragnews/__init__.py:145 | a join with at least one line starts with the first line |
| Strings.SplitJoin | ragnews/__init__.py:145 | splitting a join at the separator gives back the lines when none holds the separator |
| Strings.JoinSplit | ragnews/__init__.py:145 | joining the pieces of a split gives back the string |
| Sorting.InsertBy | ragnews/__init__.py:262 | inserting into a sorted sequence gives a sorted sequence with one more element, a permutation of the old one plus the new element |
| Sorting.SortBy | ragnews/__init__.py:262 | the result is sorted by the key and is a permutation of the input |
| Sorting.SortedPrefixIsSmallest | ragnews/__init__.py:262-263 | every element of a sorted prefix has a key no greater than every element after it |
| Articles.CountText | ragnews/__init__.py:370-380 | `len(db)` is at most the number of rows; it is 0 exactly when no row has text, and equal to the row count exactly when every row has text |
| ArticleStore.ArticleDB.Len | ragnews/__init__.py:370-380 | `len(db)` on the store: at most the number of rows, 0 exactly when no row has text, the row count exactly when every row has text, so placeholder rows are never counted |
| Articles.CountTextAppend | ragnews/__init__.py:370-380 | the count of a table with rows appended is the old count plus the count of the new rows |
| Articles.Placeholder | ragnews/__init__.py:325-332 | the row stored for a rejected page: only hostname, url and crawl date set; `RejectStoresPlaceholder` states that it is appended and does not raise `len` |
| Articles.UrlCount | ragnews/__init__.py:300-307 | the duplicate count is positive exactly when some row has the url |
| Crawler.IsRejected | ragnews/__init__.py:325 | the reject test: the page type is not 'article', or its text is shorter than 100 characters (a missing text is not rejected; it raises in `len`) |
| Crawler.Download | ragnews/__init__.py:312-317 | `requests.get(url)`, and after MissingSchema one retry with "https://" + url; its meaning is stated by `SchemeRetryStoresPrefixedUrl` and `ArticleStore.ArticleDB.Fetch` |
| Crawler.BuildRow | ragnews/__init__.py:325-358 | a rejected page gives the placeholder row, and any failure is an 'article' that is not rejected. A stored genuine article keeps its title, text, date and language and gets a summary. It gets a translation exactly when its language does not start with "en". The row has text exactly when the page is genuine. Exactly which pages raise is `BuildRowOutcome` |
| Crawler.BuildRowOutcome | ragnews/__init__.py:325-339 | building the row raises exactly for an 'article' without text (TypeError in `len`), or a genuine article without a language, or one whose needed translation or whose summary call raises. A genuine article that does not raise carries the summary the model returned, and the translation unless its language starts with "en" |
| Crawler.Visit | ragnews/__init__.py:298-359 | the body of `add_url` up to the INSERT: the duplicate check, the download, the row; its meaning is stated by `DuplicateLeavesTable`, `StoredStep` and `BuildRowOutcome` |
| Crawler.Crawl | ragnews/__init__.py:291-368 | the table after `add_url` returns, errors swallowed by `_catch_errors` (lines 112-123); its meaning is stated by `CrawlAppends`, `CrawlBounded`, `CrawlAddsFreshUrls`, `EnrichStoresArticle` and `RejectStoresPlaceholder` |
| Crawler.Resume | ragnews/__init__.py:341-368 | a duplicate or a swallowed failure leaves the table; a stored row is appended and, with depth left, its links are followed; stated by `RejectStillRecurses` and `FailedChildIsSkipped` |
| Crawler.CrawlLinks | ragnews/__init__.py:362-368 | the link loop, once per link in order; stated by `OffSiteLinkSkipped` and `SameSiteLinkCrawled` |
| Crawler.OffSiteLinkSkipped | ragnews/__init__.py:363-368 | a link whose netloc fails the same-site test leaves the table as the earlier links left it |
| Crawler.SameSiteLinkCrawled | ragnews/__init__.py:363-368 | a same-site link gets its own `add_url(url2, recursive_depth - 1)` with duplicates disallowed, on the table the earlier links left |
| Crawler.CrawlAsWritten | ragnews/__init__.py:321-325 | the call as written; `Findings.AsWrittenNeverInserts` states that it never stores a row |
| Crawler.VisitAsWritten | ragnews/__init__.py:321-325 | as written, no call reaches the INSERT |
| Crawler.DuplicateLeavesTable | ragnews/__init__.py:298-310 | with duplicates disallowed, a url already stored leaves the table unchanged |
| Crawler.RejectStoresPlaceholder | ragnews/__init__.py:325-332 | a rejected page at depth 0 appends exactly one placeholder row and leaves `len` unchanged |
| Crawler.RejectStillRecurses | ragnews/__init__.py:325-332 | with budget left, the links of a rejected page are still followed, from the table with the placeholder |
| Crawler.EnrichStoresArticle | ragnews/__init__.py:325-359 | at depth 0, a fetched genuine article with a language whose model calls succeed appends exactly one row: the url and hostname it was fetched under, its text and language, the summary the model returned, a translation exactly when the language does not start with "en", and `len` one higher |
| Crawler.EnrichStoredBeforeLinks | ragnews/__init__.py:333-368 | at any depth, a fetched genuine article with a language whose model calls succeed has its enriched row appended right after the old rows, before any link is followed; with depth left, its links are then crawled from that table with depth - 1 |
| Crawler.StoredRowComesFirst | ragnews/__init__.py:342-368 | once a row is built, the table after the call starts with the old rows followed by that row, whatever the recursion into links appends |
| Crawler.SchemeRetryStoresPrefixedUrl | ragnews/__init__.py:313-319 | after MissingSchema the stored url is "https://" + url and the hostname is its netloc |
| Crawler.FailedChildIsSkipped | ragnews/__init__.py:112-123 | a child call that raises leaves the table as its siblings made it, and the loop goes on |
| Crawler.StoredStep | ragnews/__init__.py:312-359 | a stored step carries the fetched url and the extractor's links, and passed the duplicate check |
| Crawler.CrawlAppends | ragnews/__init__.py:341-368 | a crawl only appends: the rows present before are kept, in place |
| Crawler.TreeSize | ragnews/__init__.py:361-368 | the number of pages 1 + f + ... + f^depth in a crawl tree of the given depth whose pages have at most f links, at least one; `CrawlBounded` bounds the table by it |
| Crawler.CrawlBounded | ragnews/__init__.py:361-368 | when no page has more than f links, a crawl adds at most 1 + f + ... + f^depth rows |
| Crawler.CrawlAddsFreshUrls | ragnews/__init__.py:298-310 | when no request hits MissingSchema, every row after the first that a crawl adds has a url not stored before it, and with duplicates disallowed the first one does too |
| Retrieval.Quoted | ragnews/__init__.py:257 | the MATCH argument is the query between two double quotes |
| Retrieval.Matches | ragnews/__init__.py:258-261 | `WHERE articles MATCH ?` over the first n rows: at most one candidate per row |
| Retrieval.MatchesMembership | ragnews/__init__.py:258-261 | every candidate is a matching row with its native rank, and every matching row is a candidate |
| Retrieval.MatchesCount | ragnews/__init__.py:258-261 | there are exactly as many candidates as matching rows, identical rows counted apart |
| Retrieval.CountBefore | ragnews/__init__.py:258-262 | a matching row has fewer matches before it than any later cut-off, so positions of matching rows strictly grow |
| Retrieval.MatchesPosition | ragnews/__init__.py:258-262 | matching row i is the candidate at position "matches before i", with its native rank: table order is kept and none is dropped or merged |
| Retrieval.TopRows | ragnews/__init__.py:262-263 | `ORDER BY rank LIMIT ?` keeps min(limit, n) rows, all rows for a negative limit. They are sorted by rank, drawn from the matches, and none ranks above a match that was cut |
| Retrieval.TimeBias | ragnews/__init__.py:276 | for positive alpha and a non-negative age the bias is in (0, 1], and it is exactly 1 at age 0 |
| Retrieval.TimeBiasAntitone | ragnews/__init__.py:255-276 | for a fixed positive alpha the bias `alpha / (age + alpha)` never grows with age, so of two equally ranked articles the newer keeps more of its rank |
| Retrieval.TimeBiasGrowsWithAlpha | ragnews/__init__.py:254 | lowering alpha makes age count for more: for a fixed age the bias never shrinks as alpha grows, and for a positive age it strictly grows |
| Retrieval.Score | ragnews/__init__.py:274-283 | a row scores exactly when its date is present and parses and the divisor is non-zero. A missing date raises. A score keeps url, title and summary, and its final rank is the native rank times the bias |
| Retrieval.ScoreAllMeaning | ragnews/__init__.py:272-284 | the loop succeeds exactly when every row scores, and then gives one article per row in order. Otherwise it raises the error of the first row that fails |
| Retrieval.ScoreAllFailureSticks | ragnews/__init__.py:272-284 | once a prefix of the loop raised, the whole loop raises the same error |
| Retrieval.ScoreAll | ragnews/__init__.py:272-284 | the scoring loop; stated by `ScoreAllMeaning` and `ScoreAllFailureSticks` |
| Retrieval.SortByFinalRank | ragnews/__init__.py:286 | the articles come out in descending final rank, a permutation of the input |
| Retrieval.Selected | ragnews/__init__.py:258-263 | the rows the SELECT returns, before scoring |
| Retrieval.SelectedCount | ragnews/__init__.py:258-263 | the SELECT returns min(limit, number of matching rows) rows, counting identical rows apart, and every match for a negative limit |
| Retrieval.Search | ragnews/__init__.py:250-288 | `find_articles` with the query columns and the final-rank key it evidently intends; stated by `SearchResult`, `LimitByNativeRank`, `EmptySearch` and `SuccessMeansDatedRows` |
| Retrieval.SearchAsWritten | ragnews/__init__.py:258-286 | `find_articles` as written; `Findings.SearchAsWrittenRaises` shows it raising on a match |
| Retrieval.SearchResult | ragnews/__init__.py:250-288 | a successful search returns one article per selected row, at most `limit`. They are sorted descending and are exactly the scored rows, each the score of a selected row |
| Retrieval.LimitByNativeRank | ragnews/__init__.py:262-263 | a selected row never ranks worse natively than a matching row that was cut |
| Retrieval.EmptySearch | ragnews/__init__.py:272-288 | when no row matches, the search returns the empty list and no error |
| Retrieval.SuccessMeansDatedRows | ragnews/__init__.py:274 | a successful search selected only rows with a publish date, so placeholders never surface |
| Retrieval.NegativeRankFavoursOlder | ragnews/__init__.py:276-277 | with a negative rank, the older of two equally relevant articles gets the larger final rank |
| Retrieval.PositiveRankFavoursNewer | ragnews/__init__.py:276-277 | with a positive rank, the newer one does |
| ArticleStore.ArticleDB.constructor | ragnews/__init__.py:220-224 | the store opens on the rows already in its file |
| ArticleStore.ArticleDB.AddUrl | ragnews/__init__.py:291-368 | the table after the call, errors swallowed, is `Crawl` of the table before it |
| ArticleStore.ArticleDB.AddUrlBody | ragnews/__init__.py:292-368 | the body either raises before the INSERT, leaving the table alone, or it skips or stores as `Crawl` says. It reports an error exactly when `Visit` fails |
| ArticleStore.ArticleDB.Insert | ragnews/__init__.py:341-368 | the INSERT appends the row, and with budget left the page's links are followed |
| ArticleStore.ArticleDB.Fetch | ragnews/__init__.py:312-317 | the fetched url is the url, or "https://" + url after MissingSchema; any other failure raises |
| ArticleStore.ArticleDB.MakeRow | ragnews/__init__.py:325-339 | the row built is `BuildRow`'s, with all its properties above |
| ArticleStore.ArticleDB.FollowLinks | ragnews/__init__.py:362-368 | each same-site link, in order, gets its own `add_url` with duplicates disallowed |
| ArticleStore.ArticleDB.FindArticles | ragnews/__init__.py:250-288 | the loop and the sort return `Search` of the table, with all its properties above |
| Rag.ArticleLines | ragnews/__init__.py:145 | one line per article, in retrieval order. Line i starts with the i-th title (the text "None" when missing), then holds " - ", then the i-th url, and nothing after it |
| Rag.LineParts | ragnews/__init__.py:145 | where the title, the dash and the url sit in one "{title} - {url}" line |
| Rag.ArticlesStr | ragnews/__init__.py:145 | the lines joined by newlines; stated by `EmptyArticlesStr` and `ArticlesStrLines` |
| Rag.RagAnswer | ragnews/__init__.py:131-169 | `rag` as a function of the table; stated by `AnswerIsGrounded` and `KeywordsDefaultToText` |
| Rag.UserPrompt | ragnews/__init__.py:147-153 | the prompt holds the original text, then the article list, each at its fixed offset in the template |
| Rag.Rag | ragnews/__init__.py:131-169 | `rag` returns `RagAnswer` of the store's rows, or the step that raised |
| Rag.KeywordsDefaultToText | ragnews/__init__.py:136-140 | leaving `keywords_text` out is the same as passing the text itself |
| Rag.AnswerIsGrounded | ragnews/__init__.py:136-167 | a returned answer is the model's reply, under the answer prompt, to the prompt built from the articles found with the extracted keywords |
| Rag.EmptyArticlesStr | ragnews/__init__.py:145 | the article list is empty exactly when no article was found |
| Rag.ArticlesStrLines | ragnews/__init__.py:145 | without newlines in titles and urls, splitting the list at newlines gives one line per article |
| Rag.PromptHoldsTextAndArticles | ragnews/__init__.py:147-153 | the prompt contains the text and the article list |
| Evaluate.IsCorrect | ragnews/evaluate.py:44 | `pred == true`; `ListMasksNeverMatch` states that a list of masks never equals an answer |
| Evaluate.Correct | ragnews/evaluate.py:37-46 | the counter never exceeds the number of pairs |
| Evaluate.CorrectMeaning | ragnews/evaluate.py:40-46 | every pair is counted exactly when all are correct, none exactly when none are |
| Evaluate.Percentage | ragnews/evaluate.py:47 | the accuracy is in [0, 100], 100 exactly when all are correct and 0 exactly when none are |
| Evaluate.ComputeAccuracy | ragnews/evaluate.py:35-49 | an empty list raises ZeroDivisionError. Otherwise the result is the percentage of correct pairs: in [0, 100], 100 exactly when every prediction equals its masks and 0 exactly when none does |
| Evaluate.RagClassifier.constructor | ragnews/evaluate.py:8-9 | the classifier keeps the store it is given |
| Evaluate.Predictions | ragnews/evaluate.py:15-25 | the list that `predict` builds; stated by `PredictionsMeaning` and `PredictionsFailureSticks` |
| Evaluate.RagClassifier.Predict | ragnews/evaluate.py:11-25 | `predict` returns `Predictions` of `rag` on the store, or the first error |
| Evaluate.PredictionsFailureSticks | ragnews/evaluate.py:16-23 | once a `rag` call raised, `predict` raises that error |
| Evaluate.PredictionsMeaning | ragnews/evaluate.py:15-25 | `predict` succeeds exactly when every `rag` call does, and then pairs the i-th answer with the i-th masks, one pair per point, in order |
| Evaluate.ListMasksNeverMatch | ragnews/evaluate.py:44 | masks stored as a JSON list never equal the answer string, so accuracy is 0 |
| Findings.AddUrlAsWrittenStoresNothing | ragnews/__init__.py:321-325 | on a page that is not an article, the call as written stores nothing, while the corrected call stores one placeholder |
| Findings.AsWrittenNeverInserts | ragnews/__init__.py:321-359 | as written, no table, url or network leads to an INSERT |
| Findings.SearchAsWrittenRaises | ragnews/__init__.py:258-286 | one dated matching article: as written the search raises on `row['publish_date']`, while the corrected search returns it with final rank -2 |
| Findings.SchemelessUrlIsStored | ragnews/__init__.py:312-319 | `add_url("a.com")` on a site reachable only with a scheme stores the row for "https://a.com" |
| Findings.SchemeRetryDefeatsDedup | ragnews/__init__.py:298-319 | `add_url("a.com")` twice with duplicates disallowed stores "https://a.com" twice |

## Left out

- SQLite and FTS5 internals: tokenising, the MATCH grammar and bm25. `RankOracle` stands for them. A query holding a double quote is a syntax error in FTS5, and the model does not raise it.
- `ORDER BY rank` breaks ties in an order the engine does not fix. The model breaks them by insertion sort over the table order.
- HTTP: status codes and bodies. A fetch is `Fetched`, `MissingSchema` or another request exception.
- The HTML extractor (the `ragnewsmetahtml` calls) is an oracle from the fetched url to its report. The extractor's own code is not part of this model.
- The Groq client: the model name, the temperature and the seed parameter. The service is an oracle, so it answers the same prompt the same way within one call. `seed` has no other effect in the code.
- The clock: `datetime.now()` is the `now` field for the crawl date. Every row of one recursive crawl gets the same `now`, while each INSERT calls `datetime.now()` anew (ragnews/__init__.py:354). The age in days is an `AgeOracle`.
- The wording of the four system prompts is not modelled. The gateway is indexed by which prompt is sent (`SystemPrompt`); the four texts differ, so this loses nothing about which call is which.
- `datetime.fromisoformat` is an `AgeOracle` that reports a date it rejects.
- `urlparse` is modelled only for the netloc, as a total function. It does not strip the leading whitespace or remove the tabs and newlines that `urlparse` removes from an href. It has no IPv6 brackets and no NFKC check.
- Crawler.CrawlLinks: a link whose href has unbalanced brackets makes `urlparse(url2)` (ragnews/__init__.py:365) raise ValueError in the parent's loop, and a link without an 'href' key raises KeyError at line 364. Either ends the parent's call, so the remaining links are skipped. The model follows every link.
- Logging (`logging`, `_logsql`), `ArticleDB._create_schema`, `load_data`, `main`, the `print` calls in `compute_accuracy` and the command line are left out. They are I/O that does not affect the results.
- Retrieval.SortByFinalRank, Sorting.SortBy: the model sorts values rather than the list in place. The sort is stable by construction, but stability is not stated in a contract.
- Floats: `timebias_alpha`, the ranks and the accuracy `correct / total * 100` (ragnews/evaluate.py:47) are floats in the code. The model uses exact reals, so rounding is not modelled.
- A data point without a `masked_text` or `masks` key (a KeyError) is left out: `DataPoint` always has both.
- Strings.Split: its own contract says only that it gives at least one piece. Its meaning is stated by SplitJoin and JoinSplit.

## Findings

| source | as written | input that shows it | evidently intended | confidence | as-written member | corrected member |
|---|---|---|---|---|---|---|
| ragnews/__init__.py:321-325 | the two extractor lines are commented out, so `info` is undefined. Every call past the download raises NameError, which `_catch_errors` swallows, so nothing is ever stored | `add_url("https://a.com")` on an empty table, where the page is not an article | the page is extracted, stored as a placeholder or an enriched article, and its links are followed | high, not executed | Crawler.CrawlAsWritten, Findings.AddUrlAsWrittenStoresNothing | Crawler.Crawl |
| ragnews/__init__.py:259, 274-286 | the SELECT returns only url, title and en_summary, so `row['publish_date']` raises for any match. `final_rank` is computed but never stored in the article, so even with the column present the sort would raise KeyError | `find_articles("election")` on a table with one matching article dated today | every selected row is scored by `rank * time_bias` and the articles are sorted by it | high, not executed | Retrieval.SearchAsWritten, Findings.SearchAsWrittenRaises | Retrieval.Search |
