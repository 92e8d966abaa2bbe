/**
 * The evaluation script: `RAGClassifier.predict` runs `rag` on the masked
 * text of every data point and pairs each answer with the point's true
 * masks; `compute_accuracy` is the percentage of pairs whose prediction
 * equals the masks.
 */
module Evaluate {
  import opened Wrappers
  import opened Llm
  import opened Articles
  import opened Retrieval
  import opened ArticleStore
  import opened Rag

  /** A value decoded by `json.loads`. */
  datatype Json =
    | JNull
    | JBool(b: bool)
    | JNumber(n: real)
    | JString(s: string)
    | JArray(items: seq<Json>)
    | JObject(fields: map<string, Json>)

  /** One line of the data file: the text with its masks hidden, and the masks. */
  datatype DataPoint = DataPoint(maskedText: string, masks: Json)

  /** One `(predicted_masks, true_masks)` pair. */
  datatype Prediction = Prediction(predicted: string, truth: Json)

  /** `pred == true`: a string equals a decoded JSON value only when that value is the same string. */
  predicate IsCorrect(p: Prediction) {
    p.truth == JString(p.predicted)
  }

  /** The `correct` counter after the loop: the pairs whose prediction equals the masks. */
  function Correct(ps: seq<Prediction>): (n: nat)
    ensures n <= |ps|
  {
    if ps == [] then 0
    else Correct(ps[..|ps| - 1]) + if IsCorrect(ps[|ps| - 1]) then 1 else 0
  }

  /** Every pair is counted exactly when all are correct, and none exactly when none are. */
  lemma {:induction false} CorrectMeaning(ps: seq<Prediction>)
    ensures Correct(ps) == |ps| <==> forall i :: 0 <= i < |ps| ==> IsCorrect(ps[i])
    ensures Correct(ps) == 0 <==> forall i :: 0 <= i < |ps| ==> !IsCorrect(ps[i])
  {
    if ps != [] {
      var init := ps[..|ps| - 1];
      CorrectMeaning(init);
      assert forall i :: 0 <= i < |init| ==> init[i] == ps[i];
    }
  }

  /** The exception `compute_accuracy` raises on an empty list: `correct / total` with `total == 0`. */
  datatype AccuracyError = ZeroDivisionError

  /** `correct / total * 100`: a percentage in [0, 100], at its ends exactly when none or all are correct. */
  function Percentage(correct: nat, total: nat): (p: real)
    requires 0 < total && correct <= total
    ensures 0.0 <= p <= 100.0
    ensures p == 100.0 <==> correct == total
    ensures p == 0.0 <==> correct == 0
  {
    RatioBounds(correct as real, total as real);
    correct as real / total as real * 100.0
  }

  /** A ratio of a part to a positive whole lies in [0, 1], at 1 for the whole and at 0 for nothing. */
  lemma RatioBounds(c: real, t: real)
    requires 0.0 <= c <= t && 0.0 < t
    ensures 0.0 <= c / t <= 1.0
    ensures c / t == 1.0 <==> c == t
    ensures c / t == 0.0 <==> c == 0.0
  {
    assert c / t * t == c;
  }

  /** `compute_accuracy(predictions)`: the percentage of correct pairs, or the division by zero. */
  method ComputeAccuracy(predictions: seq<Prediction>) returns (r: Result<real, AccuracyError>)
    ensures r.Failure? <==> |predictions| == 0
    ensures r.Success? ==> r.value == Percentage(Correct(predictions), |predictions|)
    ensures r.Success? ==> 0.0 <= r.value <= 100.0
    ensures r.Success? ==> (r.value == 100.0 <==> forall i :: 0 <= i < |predictions| ==> IsCorrect(predictions[i]))
    ensures r.Success? ==> (r.value == 0.0 <==> forall i :: 0 <= i < |predictions| ==> !IsCorrect(predictions[i]))
  {
    var correct := 0;
    var total := |predictions|;
    for i := 0 to |predictions|
      invariant correct == Correct(predictions[..i])
    {
      assert predictions[..i + 1][..i] == predictions[..i];
      assert Correct(predictions[..i + 1]) == Correct(predictions[..i]) + if IsCorrect(predictions[i]) then 1 else 0;
      if IsCorrect(predictions[i]) {
        correct := correct + 1;
      }
    }
    assert predictions[..|predictions|] == predictions;
    if total == 0 {
      return Failure(ZeroDivisionError);
    }
    CorrectMeaning(predictions);
    var accuracy := Percentage(correct, total);
    return Success(accuracy);
  }

  /** `rag(text, db)` on a store holding `rows`, as a function of the text. */
  function RagOn(rows: seq<Row>, llm: Gateway, rank: RankOracle, age: AgeOracle): string -> Result<string, RagError> {
    text => RagAnswer(rows, llm, rank, age, text, None)
  }

  /** The predictions `predict(X)` returns when `rag` answers by `answer`, or the error of the first call that raised. */
  function Predictions(answer: string -> Result<string, RagError>, xs: seq<DataPoint>): Result<seq<Prediction>, RagError> {
    if xs == [] then Success([])
    else
      match Predictions(answer, xs[..|xs| - 1])
      case Failure(e) => Failure(e)
      case Success(done) =>
        var x := xs[|xs| - 1];
        match answer(x.maskedText)
        case Failure(e) => Failure(e)
        case Success(predicted) => Success(done + [Prediction(predicted, x.masks)])
  }

  /** `RAGClassifier`: holds the store that every `rag` call searches. */
  class RagClassifier {
    const db: ArticleDB

    constructor (db: ArticleDB)
      ensures this.db == db
    {
      this.db := db;
    }

    /** `predict(X)`: one `(rag(masked_text, db), masks)` pair per data point, in order. */
    method Predict(llm: Gateway, rank: RankOracle, age: AgeOracle, xs: seq<DataPoint>)
      returns (r: Result<seq<Prediction>, RagError>)
      ensures r == Predictions(RagOn(db.rows, llm, rank, age), xs)
    {
      ghost var answer := RagOn(db.rows, llm, rank, age);
      var predictions: seq<Prediction> := [];
      for i := 0 to |xs|
        invariant Predictions(answer, xs[..i]) == Success(predictions)
      {
        var maskedText := xs[i].maskedText;
        var trueMasks := xs[i].masks;
        PredictionsStep(answer, xs, i);
        var predictedMasks := Rag.Rag(db, llm, rank, age, maskedText);
        assert answer(xs[i].maskedText) == predictedMasks;
        if predictedMasks.Failure? {
          PredictionsFailureSticks(answer, xs, i + 1);
          return Failure(predictedMasks.error);
        }
        predictions := predictions + [Prediction(predictedMasks.value, trueMasks)];
      }
      assert xs[..|xs|] == xs;
      return Success(predictions);
    }
  }

  // ---------------------------------------------------------------------------
  // Properties of the predictions
  // ---------------------------------------------------------------------------

  /** One more turn of the loop, after a prefix whose `rag` calls all returned. */
  lemma PredictionsStep(answer: string -> Result<string, RagError>, xs: seq<DataPoint>, i: nat)
    requires i < |xs| && Predictions(answer, xs[..i]).Success?
    ensures Predictions(answer, xs[..i + 1])
         == match answer(xs[i].maskedText)
            case Failure(e) => Failure(e)
            case Success(predicted) => Success(Predictions(answer, xs[..i]).value + [Prediction(predicted, xs[i].masks)])
  {
    assert xs[..i + 1][..i] == xs[..i];
  }

  /** Once a `rag` call has raised, `predict` raises the same error. */
  lemma {:induction false} PredictionsFailureSticks(answer: string -> Result<string, RagError>, xs: seq<DataPoint>, k: nat)
    requires k <= |xs| && Predictions(answer, xs[..k]).Failure?
    ensures Predictions(answer, xs) == Predictions(answer, xs[..k])
    decreases |xs|
  {
    if k == |xs| {
      assert xs[..k] == xs;
    } else {
      var init := xs[..|xs| - 1];
      assert init[..k] == xs[..k];
      PredictionsFailureSticks(answer, init, k);
    }
  }

  /**
   * `predict` succeeds exactly when every `rag` call does, and then pairs the
   * i-th answer with the i-th data point's masks, one pair per point, in order.
   */
  lemma {:induction false} PredictionsMeaning(answer: string -> Result<string, RagError>, xs: seq<DataPoint>)
    ensures Predictions(answer, xs).Success? <==> forall i :: 0 <= i < |xs| ==> answer(xs[i].maskedText).Success?
    ensures Predictions(answer, xs).Success? ==>
      && |Predictions(answer, xs).value| == |xs|
      && forall i :: 0 <= i < |xs| ==>
           Predictions(answer, xs).value[i] == Prediction(answer(xs[i].maskedText).value, xs[i].masks)
  {
    if xs != [] {
      var init := xs[..|xs| - 1];
      PredictionsMeaning(answer, init);
      assert forall i :: 0 <= i < |init| ==> init[i] == xs[i];
    }
  }

  /** Masks stored as a JSON list never equal the string `rag` returns, so such a data set scores 0. */
  lemma ListMasksNeverMatch(ps: seq<Prediction>)
    requires forall i :: 0 <= i < |ps| ==> ps[i].truth.JArray?
    ensures Correct(ps) == 0
  {
    CorrectMeaning(ps);
  }
}
