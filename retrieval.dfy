/**
 * What `ArticleDB.find_articles(query, limit, timebias_alpha)` computes:
 * the full-text query on the double-quoted keywords, `ORDER BY rank LIMIT ?`
 * on the engine's native rank, the time bias `alpha / (age_days + alpha)`
 * applied to each selected row, and a stable sort on the biased rank,
 * largest first.
 */
module Retrieval {
  import opened Wrappers
  import opened Sorting
  import opened Articles

  /**
   * The full-text engine as seen by the store: for the MATCH expression, the
   * table and a row index, that row's native rank when the row matches.
   */
  type RankOracle = (string, seq<Row>, nat) -> Option<real>

  /**
   * Whole days from a stored publish date to now, or `None` when
   * `datetime.fromisoformat` rejects the text.
   */
  type AgeOracle = string -> Option<int>

  /** A matching row with its native rank (`ORDER BY rank` puts the smallest first). */
  datatype Candidate = Candidate(row: Row, rank: real)

  /** One result of the search, with the biased rank it was ordered by. */
  datatype Article = Article(url: string, title: Option<string>, enSummary: Option<string>, finalRank: real)

  /** The exceptions that end a search. */
  datatype SearchError =
    | PublishDateMissing    // fromisoformat(None): a placeholder row was selected
    | PublishDateInvalid    // fromisoformat rejected the stored text
    | ZeroDivision          // age_days + timebias_alpha == 0
    | ColumnNotSelected     // row['publish_date'] on a row that lacks the column

  /** The MATCH argument: the keywords wrapped in double quotes, so that they are searched as one phrase. */
  function Quoted(query: string): (q: string)
    ensures |q| == |query| + 2
    ensures q[0] == '"' && q[|q| - 1] == '"' && q[1..|q| - 1] == query
  {
    "\"" + query + "\""
  }

  /**
   * The rows among the first `n` that match `q`, in table order, with their
   * native ranks (`MatchesMembership`, `MatchesCount`, `MatchesPosition`).
   */
  function Matches(rows: seq<Row>, q: string, rank: RankOracle, n: nat): (r: seq<Candidate>)
    requires n <= |rows|
    ensures |r| <= n
  {
    if n == 0 then []
    else
      var earlier := Matches(rows, q, rank, n - 1);
      match rank(q, rows, n - 1)
      case None => earlier
      case Some(k) => earlier + [Candidate(rows[n - 1], k)]
  }

  /** Every candidate is a matching row with its native rank, and every matching row is a candidate. */
  lemma {:induction false} MatchesMembership(rows: seq<Row>, q: string, rank: RankOracle, n: nat)
    requires n <= |rows|
    ensures forall c :: c in Matches(rows, q, rank, n) ==>
      exists i :: 0 <= i < n && rows[i] == c.row && rank(q, rows, i) == Some(c.rank)
    ensures forall i :: 0 <= i < n && rank(q, rows, i).Some? ==>
      Candidate(rows[i], rank(q, rows, i).value) in Matches(rows, q, rank, n)
  {
    if n > 0 {
      MatchesMembership(rows, q, rank, n - 1);
    }
  }

  /** How many of the first `n` rows match `q`. */
  function MatchCount(rows: seq<Row>, q: string, rank: RankOracle, n: nat): nat
    requires n <= |rows|
  {
    if n == 0 then 0
    else MatchCount(rows, q, rank, n - 1) + if rank(q, rows, n - 1).Some? then 1 else 0
  }

  /** One candidate per matching row, duplicates included. */
  lemma {:induction false} MatchesCount(rows: seq<Row>, q: string, rank: RankOracle, n: nat)
    requires n <= |rows|
    ensures |Matches(rows, q, rank, n)| == MatchCount(rows, q, rank, n)
  {
    if n > 0 {
      MatchesCount(rows, q, rank, n - 1);
    }
  }

  /** A matching row has fewer matches before it than any later cut-off: positions grow with the row index. */
  lemma {:induction false} CountBefore(rows: seq<Row>, q: string, rank: RankOracle, i: nat, j: nat)
    requires i < j <= |rows| && rank(q, rows, i).Some?
    ensures MatchCount(rows, q, rank, i) < MatchCount(rows, q, rank, j)
  {
    if i < j - 1 {
      CountBefore(rows, q, rank, i, j - 1);
    }
  }

  /**
   * Matching row `i` is the candidate at position "number of matches before
   * `i`", with its native rank: the candidates keep table order, and two
   * identical rows (stored with `allow_dupes`) are two candidates.
   */
  lemma {:induction false} MatchesPosition(rows: seq<Row>, q: string, rank: RankOracle, n: nat, i: nat)
    requires i < n <= |rows| && rank(q, rows, i).Some?
    ensures MatchCount(rows, q, rank, i) < |Matches(rows, q, rank, n)|
    ensures Matches(rows, q, rank, n)[MatchCount(rows, q, rank, i)] == Candidate(rows[i], rank(q, rows, i).value)
  {
    MatchesCount(rows, q, rank, n);
    CountBefore(rows, q, rank, i, n);
    MatchesCount(rows, q, rank, n - 1);
    if i < n - 1 {
      MatchesPosition(rows, q, rank, n - 1, i);
    }
  }

  /** `LIMIT ?` cuts the matching rows, counted with their multiplicity, to `limit`; a negative limit keeps them all. */
  lemma SelectedCount(rows: seq<Row>, query: string, limit: int, rank: RankOracle)
    ensures var m := MatchCount(rows, Quoted(query), rank, |rows|);
      |Selected(rows, query, limit, rank)| == if 0 <= limit < m then limit else m
  {
    MatchesCount(rows, Quoted(query), rank, |rows|);
  }

  function RankOf(c: Candidate): real {
    c.rank
  }

  /**
   * `ORDER BY rank LIMIT ?`: the candidates in increasing rank, cut to
   * `limit` rows; SQLite reads a negative LIMIT as no limit.
   */
  function TopRows(cands: seq<Candidate>, limit: int): (top: seq<Candidate>)
    ensures |top| == if 0 <= limit < |cands| then limit else |cands|
    ensures SortedBy(top, RankOf)
    ensures multiset(top) <= multiset(cands)
    ensures forall c, d :: c in top && d in multiset(cands) - multiset(top) ==> c.rank <= d.rank
  {
    var sorted := SortBy(cands, RankOf);
    var n := if 0 <= limit < |sorted| then limit else |sorted|;
    SortedPrefixFacts(cands, sorted, n);
    sorted[..n]
  }

  lemma SortedPrefixFacts(cands: seq<Candidate>, sorted: seq<Candidate>, n: nat)
    requires multiset(sorted) == multiset(cands) && SortedBy(sorted, RankOf) && n <= |sorted|
    ensures SortedBy(sorted[..n], RankOf)
    ensures multiset(sorted[..n]) <= multiset(cands)
    ensures forall c, d :: c in sorted[..n] && d in multiset(cands) - multiset(sorted[..n]) ==> c.rank <= d.rank
  {
    PrefixSorted(sorted, RankOf, n);
    SplitMultiset(sorted, n);
    assert multiset(cands) - multiset(sorted[..n]) == multiset(sorted[n..]);
    PrefixBelowRest(sorted, n);
  }

  /** Every candidate kept by the cut ranks no higher than every candidate cut off. */
  lemma PrefixBelowRest(sorted: seq<Candidate>, n: nat)
    requires SortedBy(sorted, RankOf) && n <= |sorted|
    ensures forall c, d :: c in sorted[..n] && d in multiset(sorted[n..]) ==> c.rank <= d.rank
  {
    var top, rest := sorted[..n], sorted[n..];
    SortedPrefixIsSmallest(sorted, RankOf, n);
    forall c: Candidate, d: Candidate | c in top && d in multiset(rest) ensures c.rank <= d.rank {
      var i :| 0 <= i < |top| && top[i] == c;
      var j :| 0 <= j < |rest| && rest[j] == d;
      assert RankOf(top[i]) <= RankOf(rest[j]);
    }
  }

  /** `time_bias = timebias_alpha / (age_days + timebias_alpha)`: in (0, 1], and 1 for an article published today. */
  function TimeBias(alpha: real, age: int): (bias: real)
    requires age as real + alpha != 0.0
    ensures alpha > 0.0 && age >= 0 ==> 0.0 < bias <= 1.0
    ensures alpha > 0.0 && age == 0 ==> bias == 1.0
  {
    alpha / (age as real + alpha)
  }

  /** For a positive alpha the bias never grows with age. */
  lemma TimeBiasAntitone(alpha: real, age1: int, age2: int)
    requires alpha > 0.0 && 0 <= age1 <= age2
    ensures TimeBias(alpha, age2) <= TimeBias(alpha, age1)
  {
    var d1, d2 := age1 as real + alpha, age2 as real + alpha;
    assert alpha / d2 <= alpha / d1 by {
      assert alpha / d2 * d2 == alpha && alpha / d1 * d1 == alpha;
      assert (alpha / d2) * d1 <= (alpha / d2) * d2;
    }
  }

  /**
   * Lowering alpha makes age count for more: for a fixed age the bias never
   * shrinks as alpha grows, and for a positive age it strictly grows.
   */
  lemma TimeBiasGrowsWithAlpha(a1: real, a2: real, age: int)
    requires 0.0 < a1 <= a2 && age >= 0
    ensures TimeBias(a1, age) <= TimeBias(a2, age)
    ensures age > 0 && a1 < a2 ==> TimeBias(a1, age) < TimeBias(a2, age)
  {
    var d := age as real;
    var b1, b2 := TimeBias(a1, age), TimeBias(a2, age);
    assert b1 * (d + a1) == a1 && b2 * (d + a2) == a2;
    // b1 <= b2 <==> a1 * (d + a2) <= a2 * (d + a1) <==> a1 * d <= a2 * d
    assert a1 * d <= a2 * d;
    assert b1 * (d + a1) * (d + a2) <= b2 * (d + a2) * (d + a1);
    if age > 0 && a1 < a2 {
      assert a1 * d < a2 * d;
      assert b1 * (d + a1) * (d + a2) < b2 * (d + a2) * (d + a1);
    }
  }

  /** The loop body for one selected row: parse the date, compute the bias and the final rank. */
  function Score(c: Candidate, alpha: real, age: AgeOracle): (r: Result<Article, SearchError>)
    ensures r.Success? ==> r.value.url == c.row.url && r.value.title == c.row.title && r.value.enSummary == c.row.enSummary
    ensures r == Failure(PublishDateMissing) <==> c.row.publishDate.None?
    ensures r.Success? <==>
      c.row.publishDate.Some? && age(c.row.publishDate.value).Some?
      && age(c.row.publishDate.value).value as real + alpha != 0.0
    ensures r.Success? ==> r.value.finalRank == c.rank * TimeBias(alpha, age(c.row.publishDate.value).value)
  {
    match c.row.publishDate
    case None => Failure(PublishDateMissing)
    case Some(date) =>
      match age(date)
      case None => Failure(PublishDateInvalid)
      case Some(days) =>
        if days as real + alpha == 0.0 then Failure(ZeroDivision)
        else Success(Scored(c, TimeBias(alpha, days)))
  }

  /** The article built for a row once its time bias is known. */
  function Scored(c: Candidate, timeBias: real): Article {
    Article(c.row.url, c.row.title, c.row.enSummary, c.rank * timeBias)
  }

  /** The `for row in rows` loop: every selected row scored in order; the first exception ends it. */
  function ScoreAll(cs: seq<Candidate>, alpha: real, age: AgeOracle): (r: Result<seq<Article>, SearchError>)
  {
    if cs == [] then Success([])
    else
      match ScoreAll(cs[..|cs| - 1], alpha, age)
      case Failure(e) => Failure(e)
      case Success(done) =>
        match Score(cs[|cs| - 1], alpha, age)
        case Failure(e) => Failure(e)
        case Success(a) => Success(done + [a])
  }

  /**
   * The loop succeeds exactly when every selected row scores, and then yields
   * one article per row in order; otherwise it raises the exception of the
   * first row that does not score.
   */
  lemma {:induction false} ScoreAllMeaning(cs: seq<Candidate>, alpha: real, age: AgeOracle)
    ensures ScoreAll(cs, alpha, age).Success? <==> forall i :: 0 <= i < |cs| ==> Score(cs[i], alpha, age).Success?
    ensures ScoreAll(cs, alpha, age).Success? ==>
      |ScoreAll(cs, alpha, age).value| == |cs|
      && forall i :: 0 <= i < |cs| ==> ScoreAll(cs, alpha, age).value[i] == Score(cs[i], alpha, age).value
    ensures ScoreAll(cs, alpha, age).Failure? ==>
      exists i :: 0 <= i < |cs| && Score(cs[i], alpha, age) == Failure(ScoreAll(cs, alpha, age).error)
                 && forall j :: 0 <= j < i ==> Score(cs[j], alpha, age).Success?
  {
    if cs != [] {
      var init := cs[..|cs| - 1];
      ScoreAllMeaning(init, alpha, age);
      assert forall i :: 0 <= i < |init| ==> init[i] == cs[i];
      var r := ScoreAll(cs, alpha, age);
      if r.Failure? && ScoreAll(init, alpha, age).Failure? {
        var i :| 0 <= i < |init| && Score(init[i], alpha, age) == Failure(r.error)
                 && forall j :: 0 <= j < i ==> Score(init[j], alpha, age).Success?;
        assert Score(cs[i], alpha, age) == Failure(r.error);
      }
    }
  }

  /** Once a prefix of the loop has raised, the whole loop raises the same exception. */
  lemma {:induction false} ScoreAllFailureSticks(cs: seq<Candidate>, k: nat, alpha: real, age: AgeOracle)
    requires k <= |cs| && ScoreAll(cs[..k], alpha, age).Failure?
    ensures ScoreAll(cs, alpha, age) == ScoreAll(cs[..k], alpha, age)
    decreases |cs|
  {
    if k == |cs| {
      assert cs[..k] == cs;
    } else {
      var init := cs[..|cs| - 1];
      assert init[..k] == cs[..k];
      ScoreAllFailureSticks(init, k, alpha, age);
    }
  }

  /** One more turn of the loop, after a prefix that has scored. */
  lemma ScoreAllStep(cs: seq<Candidate>, i: nat, alpha: real, age: AgeOracle)
    requires i < |cs| && ScoreAll(cs[..i], alpha, age).Success?
    ensures ScoreAll(cs[..i + 1], alpha, age)
         == match Score(cs[i], alpha, age)
            case Failure(e) => Failure(e)
            case Success(a) => Success(ScoreAll(cs[..i], alpha, age).value + [a])
  {
    assert cs[..i + 1][..i] == cs[..i];
  }

  function DescendingKey(a: Article): real {
    -a.finalRank
  }

  /** Largest final rank first. */
  predicate SortedDescending(arts: seq<Article>) {
    forall i, j :: 0 <= i < j < |arts| ==> arts[i].finalRank >= arts[j].finalRank
  }

  /** `articles.sort(key=final_rank, reverse=True)`: a stable sort, largest final rank first. */
  function SortByFinalRank(arts: seq<Article>): (r: seq<Article>)
    ensures |r| == |arts|
    ensures SortedDescending(r)
    ensures multiset(r) == multiset(arts)
  {
    var r := SortBy(arts, DescendingKey);
    assert forall i, j :: 0 <= i < j < |r| ==> DescendingKey(r[i]) <= DescendingKey(r[j]);
    r
  }

  /** The rows the SELECT hands to the loop. */
  function Selected(rows: seq<Row>, query: string, limit: int, rank: RankOracle): seq<Candidate> {
    TopRows(Matches(rows, Quoted(query), rank, |rows|), limit)
  }

  /** The result of `find_articles`, or the exception it raises. */
  function Search(rows: seq<Row>, query: string, limit: int, alpha: real, rank: RankOracle, age: AgeOracle)
    : Result<seq<Article>, SearchError>
  {
    var scored :- ScoreAll(Selected(rows, query, limit, rank), alpha, age);
    Success(SortByFinalRank(scored))
  }

  /** `find_articles` raises what the loop raises, and otherwise sorts what it scored. */
  lemma SearchUnfold(rows: seq<Row>, query: string, limit: int, alpha: real, rank: RankOracle, age: AgeOracle)
    ensures Search(rows, query, limit, alpha, rank, age)
         == match ScoreAll(Selected(rows, query, limit, rank), alpha, age)
            case Failure(e) => Failure(e)
            case Success(scored) => Success(SortByFinalRank(scored))
  {
  }

  /** The search as written: the SELECT lists only url, title and en_summary, so reading `publish_date` raises. */
  function SearchAsWritten(rows: seq<Row>, query: string, limit: int, rank: RankOracle): Result<seq<Article>, SearchError> {
    if Selected(rows, query, limit, rank) == [] then Success([]) else Failure(ColumnNotSelected)
  }

  // ---------------------------------------------------------------------------
  // Properties of a search
  // ---------------------------------------------------------------------------

  /**
   * A successful search returns one article per selected row, at most `limit`
   * of them, sorted by final rank with the largest first; each is the scoring
   * of a selected row, and together they are exactly the scored rows.
   */
  lemma {:induction false} SearchResult(rows: seq<Row>, query: string, limit: int, alpha: real, rank: RankOracle, age: AgeOracle)
    requires Search(rows, query, limit, alpha, rank, age).Success?
    ensures |Search(rows, query, limit, alpha, rank, age).value| == |Selected(rows, query, limit, rank)|
    ensures limit >= 0 ==> |Search(rows, query, limit, alpha, rank, age).value| <= limit
    ensures SortedDescending(Search(rows, query, limit, alpha, rank, age).value)
    ensures multiset(Search(rows, query, limit, alpha, rank, age).value)
         == multiset(ScoreAll(Selected(rows, query, limit, rank), alpha, age).value)
    ensures forall a :: a in Search(rows, query, limit, alpha, rank, age).value ==>
      exists i :: 0 <= i < |Selected(rows, query, limit, rank)| && Score(Selected(rows, query, limit, rank)[i], alpha, age) == Success(a)
  {
    var top := Selected(rows, query, limit, rank);
    var scored := ScoreAll(top, alpha, age);
    assert Search(rows, query, limit, alpha, rank, age) == Success(SortByFinalRank(scored.value));
    SortedScoring(top, alpha, age);
  }

  lemma SortedScoring(top: seq<Candidate>, alpha: real, age: AgeOracle)
    requires ScoreAll(top, alpha, age).Success?
    ensures |SortByFinalRank(ScoreAll(top, alpha, age).value)| == |top|
    ensures forall a :: a in SortByFinalRank(ScoreAll(top, alpha, age).value) ==>
      exists i :: 0 <= i < |top| && Score(top[i], alpha, age) == Success(a)
  {
    ScoreAllMeaning(top, alpha, age);
    var scored := ScoreAll(top, alpha, age).value;
    var arts := SortByFinalRank(scored);
    forall a | a in arts ensures exists i :: 0 <= i < |top| && Score(top[i], alpha, age) == Success(a) {
      assert a in multiset(arts);
      assert a in multiset(scored);
      var i :| 0 <= i < |scored| && scored[i] == a;
      assert Score(top[i], alpha, age) == Success(a);
    }
  }

  /**
   * LIMIT is applied on the native rank before the time bias: a selected row
   * never ranks worse natively than a matching row that was left out, however
   * recent the latter is.
   */
  lemma LimitByNativeRank(rows: seq<Row>, query: string, limit: int, rank: RankOracle, c: Candidate, d: Candidate)
    requires c in Selected(rows, query, limit, rank)
    requires d in multiset(Matches(rows, Quoted(query), rank, |rows|)) - multiset(Selected(rows, query, limit, rank))
    ensures c.rank <= d.rank
  {
  }

  /** No matching row is no result, not an error. */
  lemma EmptySearch(rows: seq<Row>, query: string, limit: int, alpha: real, rank: RankOracle, age: AgeOracle)
    requires forall i :: 0 <= i < |rows| ==> rank(Quoted(query), rows, i).None?
    ensures Search(rows, query, limit, alpha, rank, age) == Success([])
  {
    NoMatches(rows, Quoted(query), rank, |rows|);
    assert Selected(rows, query, limit, rank) == [];
    SearchUnfold(rows, query, limit, alpha, rank, age);
  }

  /** A phrase that no row matches selects nothing. */
  lemma {:induction false} NoMatches(rows: seq<Row>, q: string, rank: RankOracle, n: nat)
    requires n <= |rows| && forall i :: 0 <= i < n ==> rank(q, rows, i).None?
    ensures Matches(rows, q, rank, n) == []
  {
    if n > 0 {
      NoMatches(rows, q, rank, n - 1);
    }
  }

  /**
   * Placeholder rows never surface: a selected row without a publish date
   * (as every placeholder is) makes the whole search fail, so a successful
   * search selected only dated rows.
   */
  lemma SuccessMeansDatedRows(rows: seq<Row>, query: string, limit: int, alpha: real, rank: RankOracle, age: AgeOracle)
    requires Search(rows, query, limit, alpha, rank, age).Success?
    ensures forall c :: c in Selected(rows, query, limit, rank) ==> c.row.publishDate.Some?
  {
    var top := Selected(rows, query, limit, rank);
    ScoreAllMeaning(top, alpha, age);
    forall c | c in top ensures c.row.publishDate.Some? {
      var i :| 0 <= i < |top| && top[i] == c;
      assert Score(top[i], alpha, age).Success?;
    }
  }

  /**
   * With the engine's default bm25 ranks (negative, best most negative), the
   * bias pulls an older article's final rank towards zero, so the descending
   * sort puts it ahead of an equally relevant newer one.
   */
  lemma NegativeRankFavoursOlder(rank: real, alpha: real, newer: int, older: int)
    requires rank < 0.0 && alpha > 0.0 && 0 <= newer < older
    ensures rank * TimeBias(alpha, newer) < rank * TimeBias(alpha, older)
  {
    var d1, d2 := newer as real + alpha, older as real + alpha;
    assert alpha / d2 < alpha / d1 by {
      assert alpha / d2 * d2 == alpha && alpha / d1 * d1 == alpha;
      assert (alpha / d2) * d1 < (alpha / d2) * d2;
    }
  }

  /** With positive ranks the newer of two equally relevant articles comes first. */
  lemma PositiveRankFavoursNewer(rank: real, alpha: real, newer: int, older: int)
    requires rank > 0.0 && alpha > 0.0 && 0 <= newer < older
    ensures rank * TimeBias(alpha, newer) > rank * TimeBias(alpha, older)
  {
    NegativeRankFavoursOlder(-rank, alpha, newer, older);
  }
}
