/**
 * `rag(text, db, keywords_text=None)`: retrieval augmented generation. The
 * keywords the gateway extracts are searched in the store, the hits are
 * listed one per line as "{title} - {url}" under the original text, and the
 * gateway's answer to that prompt is returned. An exception from any of the
 * three steps is not caught here; it ends the call.
 */
module Rag {
  import opened Wrappers
  import opened Strings
  import opened Llm
  import opened Articles
  import opened Retrieval
  import opened ArticleStore

  /** Which step raised. */
  datatype RagError =
    | KeywordsFailed                 // the keyword extraction call raised
    | SearchFailed(e: SearchError)   // `find_articles` raised
    | AnswerFailed                   // the final `run_llm` call raised

  /** How an f-string renders an optional text column: NULL comes back as None, printed "None". */
  function PyStr(o: Option<string>): string {
    match o
    case None => "None"
    case Some(s) => s
  }

  /** One line of `articles_str`: "{title} - {url}". */
  function ArticleLine(a: Article): string {
    PyStr(a.title) + " - " + a.url
  }

  /**
   * The lines of `articles_str`, one per article, in retrieval order: the
   * i-th starts with the i-th title (or "None"), and holds " - " and then
   * the i-th url right after it, with nothing following.
   */
  function ArticleLines(arts: seq<Article>): (lines: seq<string>)
    ensures |lines| == |arts|
    ensures forall i :: 0 <= i < |arts| ==>
      && StartsWith(lines[i], PyStr(arts[i].title))
      && OccursAt(lines[i], " - ", |PyStr(arts[i].title)|)
      && OccursAt(lines[i], arts[i].url, |PyStr(arts[i].title)| + 3)
      && |lines[i]| == |PyStr(arts[i].title)| + 3 + |arts[i].url|
  {
    var lines := seq(|arts|, i requires 0 <= i < |arts| => ArticleLine(arts[i]));
    forall i | 0 <= i < |arts|
      ensures StartsWith(lines[i], PyStr(arts[i].title))
      ensures OccursAt(lines[i], " - ", |PyStr(arts[i].title)|)
      ensures OccursAt(lines[i], arts[i].url, |PyStr(arts[i].title)| + 3)
    {
      LineParts(arts[i]);
    }
    lines
  }

  /** Where the title, the dash and the url sit in one line. */
  lemma LineParts(a: Article)
    ensures StartsWith(ArticleLine(a), PyStr(a.title))
    ensures OccursAt(ArticleLine(a), " - ", |PyStr(a.title)|)
    ensures OccursAt(ArticleLine(a), a.url, |PyStr(a.title)| + 3)
  {
    var line := ArticleLine(a);
    var n := |PyStr(a.title)|;
    assert line[..n] == PyStr(a.title);
    assert line[n..n + 3] == " - ";
    assert line[n + 3..n + 3 + |a.url|] == a.url;
  }

  /** `"\n".join(...)` of the article lines. */
  function ArticlesStr(arts: seq<Article>): string {
    Join(ArticleLines(arts), "\n")
  }

  const UserHead: string := "\n    Here is the original text:\n    "
  const UserMiddle: string := "\n    Here are relevant articles:\n    "
  const UserTail: string :=
    "\n    Based on the original text and the relevant articles, please generate a detailed, accurate, and informative response to the user query.\n    "

  /**
   * The user prompt: the original text, then the article list, each at a
   * fixed place between the three fixed pieces of the template.
   */
  function UserPrompt(text: string, articlesStr: string): (p: string)
    ensures OccursAt(p, text, |UserHead|)
    ensures OccursAt(p, articlesStr, |UserHead| + |text| + |UserMiddle|)
    ensures |p| == |UserHead| + |text| + |UserMiddle| + |articlesStr| + |UserTail|
  {
    var p := UserHead + text + UserMiddle + articlesStr + UserTail;
    assert p[|UserHead|..|UserHead| + |text|] == text;
    assert p[|UserHead| + |text| + |UserMiddle|..|UserHead| + |text| + |UserMiddle| + |articlesStr|] == articlesStr;
    p
  }

  /** The answer `rag` returns for a store holding `rows`, or the step that raised. */
  function RagAnswer(rows: seq<Row>, llm: Gateway, rank: RankOracle, age: AgeOracle,
                     text: string, keywordsText: Option<string>): Result<string, RagError>
  {
    var source := if keywordsText.None? then text else keywordsText.value;
    match ExtractKeywords(llm, source)
    case None => Failure(KeywordsFailed)
    case Some(keywords) =>
      match Search(rows, keywords, 10, 1.0, rank, age)
      case Failure(e) => Failure(SearchFailed(e))
      case Success(articles) =>
        match llm(Answer, UserPrompt(text, ArticlesStr(articles)))
        case None => Failure(AnswerFailed)
        case Some(response) => Success(response)
  }

  /** `rag(text, db, keywords_text)`, with the gateway and the search inputs passed in. */
  method Rag(db: ArticleDB, llm: Gateway, rank: RankOracle, age: AgeOracle,
             text: string, keywordsText: Option<string> := None) returns (r: Result<string, RagError>)
    ensures r == RagAnswer(db.rows, llm, rank, age, text, keywordsText)
  {
    var source := text;
    if keywordsText.Some? {
      source := keywordsText.value;
    }
    var keywords := ExtractKeywords(llm, source);
    if keywords.None? {
      return Failure(KeywordsFailed);
    }
    var articles := db.FindArticles(rank, age, keywords.value);
    if articles.Failure? {
      return Failure(SearchFailed(articles.error));
    }
    var articlesStr := ArticlesStr(articles.value);
    var user := UserPrompt(text, articlesStr);
    var response := llm(Answer, user);
    if response.None? {
      return Failure(AnswerFailed);
    }
    return Success(response.value);
  }

  // ---------------------------------------------------------------------------
  // Properties of the prompt and the answer
  // ---------------------------------------------------------------------------

  /** Leaving `keywords_text` out is searching with the text itself. */
  lemma KeywordsDefaultToText(rows: seq<Row>, llm: Gateway, rank: RankOracle, age: AgeOracle, text: string)
    ensures RagAnswer(rows, llm, rank, age, text, None) == RagAnswer(rows, llm, rank, age, text, Some(text))
  {
  }

  /**
   * A returned answer is the gateway's reply, under the answer system prompt,
   * to the prompt built from the text and the articles found with the
   * keywords extracted from `keywords_text` (or the text).
   */
  lemma AnswerIsGrounded(rows: seq<Row>, llm: Gateway, rank: RankOracle, age: AgeOracle,
                         text: string, keywordsText: Option<string>)
    requires RagAnswer(rows, llm, rank, age, text, keywordsText).Success?
    ensures var source := keywordsText.GetOr(text);
      && ExtractKeywords(llm, source).Some?
      && Search(rows, ExtractKeywords(llm, source).value, 10, 1.0, rank, age).Success?
      && var articles := Search(rows, ExtractKeywords(llm, source).value, 10, 1.0, rank, age).value;
         llm(Answer, UserPrompt(text, ArticlesStr(articles)))
           == Some(RagAnswer(rows, llm, rank, age, text, keywordsText).value)
  {
  }

  /** The article list is empty exactly when there are no articles. */
  lemma EmptyArticlesStr(arts: seq<Article>)
    ensures ArticlesStr(arts) == "" <==> arts == []
  {
    if arts != [] {
      var line := ArticleLine(arts[0]);
      assert line[|PyStr(arts[0].title)|] == ' ';
      assert StartsWith(ArticlesStr(arts), line);
    }
  }

  /**
   * The article list holds one line per article, in retrieval order: when no
   * title or url holds a newline, splitting it at newlines gives the lines back.
   */
  lemma ArticlesStrLines(arts: seq<Article>)
    requires arts != []
    requires forall i :: 0 <= i < |arts| ==> '\n' !in PyStr(arts[i].title) && '\n' !in arts[i].url
    ensures Split(ArticlesStr(arts), '\n') == ArticleLines(arts)
  {
    var lines := ArticleLines(arts);
    forall k | 0 <= k < |lines| ensures '\n' !in lines[k] {
      assert lines[k] == PyStr(arts[k].title) + " - " + arts[k].url;
    }
    assert "\n" == ['\n'];
    SplitJoin(lines, '\n');
  }

  /** The prompt holds the original text and, after it, the article list. */
  lemma PromptHoldsTextAndArticles(text: string, articlesStr: string)
    ensures Contains(UserPrompt(text, articlesStr), text)
    ensures Contains(UserPrompt(text, articlesStr), articlesStr)
  {
  }
}
