/** The scoring and acceptance engine (VQAModel.__call__ and the VQAEngine
    name dispatch). The vision-language model is an opaque generator that,
    given a window of images and one question, returns the decoded answers. */
module Vqa {
  import opened Builtins
  import opened Chunks

  /** The key of one image's entry in the output: the upload's filename when
      a non-empty index-to-name map is given, the image index otherwise. */
  datatype Key = Name(name: string) | Index(index: nat)

  /** One image's entry: its 0/1 match vector, its weighted score and whether
      it is accepted. */
  datatype Verdict = Verdict(results: seq<int>, score: real, accepted: bool)

  /** The one model the engine can be built with. */
  datatype ModelKind = BlipVqaCapfiltLarge

  /** processor + generate + batch_decode: answers for a window of images
      and one question. */
  type Generator<!Image> = (seq<Image>, string) -> seq<string>

  /** VQAEngine.__init__: only 'blip-vqa-capfilt-large' is supported; any
      other name raises ValueError before a model exists. */
  function SelectModel(name: string): (r: Result<ModelKind>)
    ensures r.Ok? <==> name == "blip-vqa-capfilt-large"
    ensures r.Err? ==> r.error == UnsupportedModel(name)
  {
    if name == "blip-vqa-capfilt-large" then Ok(BlipVqaCapfiltLarge)
    else Err(UnsupportedModel(name))
  }

  /** Python's sum() of the weights. */
  function Sum(w: seq<real>): real {
    if |w| == 0 then 0.0 else w[0] + Sum(w[1..])
  }

  function Ones(m: nat): (r: seq<real>)
    ensures |r| == m && forall q | 0 <= q < m :: r[q] == 1.0
  {
    seq(m, q => 1.0)
  }

  /** Python truthiness of the optional threshold: None and 0.0 are false. */
  predicate Truthy(threshold: Option<real>) {
    threshold.Some? && threshold.value != 0.0
  }

  /** The weights the decision uses: the given ones in weighted mode, all
      ones in strict mode. */
  function AppliedWeights(weights: seq<real>, threshold: Option<real>): (w: seq<real>)
    ensures |w| == |weights|
  {
    if Truthy(threshold) then weights else Ones(|weights|)
  }

  /** The threshold the decision uses: the given one in weighted mode, the
      number of questions in strict mode. */
  function AppliedThreshold(threshold: Option<real>, numQuestions: nat): real {
    if Truthy(threshold) then threshold.value else numQuestions as real
  }

  /** One cell of the score matrix: 1 when the generated answer is one of the
      expected alternatives (exact list membership), 0 otherwise. */
  function MatchValue(answer: string, alternatives: seq<string>): (v: int)
    ensures v == 1 || v == 0
    ensures v == 1 <==> answer in alternatives
  {
    if answer in alternatives then 1 else 0
  }

  /** Sum over q of row[q] * w[q]. */
  function WeightedScore(row: seq<int>, w: seq<real>): real
    requires |row| == |w|
  {
    if |row| == 0 then 0.0 else (row[0] as real) * w[0] + WeightedScore(row[1..], w[1..])
  }

  /** The generator's answers for the window starting at `start`. */
  function WindowAnswers<Image>(gen: Generator<Image>, images: seq<Image>, size: nat, start: nat, question: string): seq<string>
    requires start <= |images|
  {
    gen(images[start..ChunkEnd(start, size, |images|)], question)
  }

  /** The generator returned one answer per image of this window. */
  predicate WindowAligned<Image>(gen: Generator<Image>, images: seq<Image>, questions: seq<string>, size: nat, start: nat, q: nat)
  {
    start <= |images| && q < |questions| &&
    |WindowAnswers(gen, images, size, start, questions[q])| == ChunkEnd(start, size, |images|) - start
  }

  /** The assertion on the answer count never fails. */
  predicate AnswersAligned<Image>(gen: Generator<Image>, images: seq<Image>, questions: seq<string>, size: nat)
    requires size > 0
  {
    forall s, q | s in Starts(|images|, size) && 0 <= q < |questions| ::
      WindowAligned(gen, images, questions, size, s, q)
  }

  /** Cell (i, q): the match value of the answer generated for image i, found
      at its offset in the window that holds it. */
  function Cell<Image>(gen: Generator<Image>, images: seq<Image>, questions: seq<string>, expected: seq<seq<string>>,
                       size: nat, i: nat, q: nat): int
    requires size > 0 && i < |images| && q < |questions| == |expected|
  {
    var s := ChunkOf(i, size);
    var answers := WindowAnswers(gen, images, size, s, questions[q]);
    if i - s < |answers| then MatchValue(answers[i - s], expected[q]) else 0
  }

  /** Row i of the score matrix. With a negative batch size range() is empty,
      no window is processed and the row keeps its zeros. */
  function Row<Image>(gen: Generator<Image>, images: seq<Image>, questions: seq<string>, expected: seq<seq<string>>,
                      batchSize: int, i: nat): seq<int>
    requires i < |images| && |questions| == |expected|
  {
    seq(|questions|, q requires 0 <= q < |questions| =>
      if batchSize > 0 then Cell(gen, images, questions, expected, batchSize, i, q) else 0)
  }

  function Matrix<Image>(gen: Generator<Image>, images: seq<Image>, questions: seq<string>, expected: seq<seq<string>>,
                         batchSize: int): seq<seq<int>>
    requires |questions| == |expected|
  {
    seq(|images|, i requires 0 <= i < |images| => Row(gen, images, questions, expected, batchSize, i))
  }

  predicate NamesCover(names: map<nat, string>, k: nat) {
    |names| > 0 ==> forall i | 0 <= i < k :: i in names
  }

  function KeyOf(names: map<nat, string>, i: nat): Key
    requires |names| > 0 ==> i in names
  {
    if |names| > 0 then Name(names[i]) else Index(i)
  }

  function VerdictOf(row: seq<int>, w: seq<real>, t: real): Verdict
    requires |row| == |w|
  {
    var score := WeightedScore(row, w);
    Verdict(row, score, score >= t)
  }

  /** The output dict after the first k iterations of the formatting loop:
      later images overwrite earlier ones that share a key. */
  function OutputUpTo(rows: seq<seq<int>>, w: seq<real>, t: real, names: map<nat, string>, k: nat): map<Key, Verdict>
    requires k <= |rows| && NamesCover(names, k)
    requires forall i | 0 <= i < |rows| :: |rows[i]| == |w|
  {
    if k == 0 then map[]
    else OutputUpTo(rows, w, t, names, k - 1)[KeyOf(names, k - 1) := VerdictOf(rows[k - 1], w, t)]
  }

  /** What VQAModel.__call__ returns or raises. */
  function Evaluate<Image>(questions: seq<string>, expected: seq<seq<string>>, images: seq<Image>, batchSize: int,
                           weights: seq<real>, threshold: Option<real>, names: map<nat, string>,
                           gen: Generator<Image>): Result<map<Key, Verdict>>
  {
    if |questions| != |expected| || |questions| != |weights| then Err(LengthMismatch)
    else if Sum(weights) != 1.0 then Err(WeightsNotNormalised)
    else if batchSize == 0 then Err(ZeroStep)
    else if batchSize > 0 && !AnswersAligned(gen, images, questions, batchSize) then Err(AnswerCountMismatch)
    else if !NamesCover(names, |images|) then Err(MissingKey)
    else
      var rows := Matrix(gen, images, questions, expected, batchSize);
      Ok(OutputUpTo(rows, AppliedWeights(weights, threshold), AppliedThreshold(threshold, |questions|), names, |images|))
  }

  /** The answer generated for image i and question q: its entry in the
      answers of the window that holds it ("" if that list is too short,
      which Evaluate reports as an error). */
  function AnswerFor<Image>(gen: Generator<Image>, images: seq<Image>, question: string, size: nat, i: nat): string
    requires size > 0 && i < |images|
  {
    var s := ChunkOf(i, size);
    var answers := WindowAnswers(gen, images, size, s, question);
    if i - s < |answers| then answers[i - s] else ""
  }

  predicate ZeroOne(row: seq<int>) {
    forall q | 0 <= q < |row| :: row[q] == 0 || row[q] == 1
  }

  /** With unit weights a 0/1 row scores the number of its ones. */
  lemma {:induction false} UnitScoreBound(row: seq<int>)
    requires ZeroOne(row)
    ensures WeightedScore(row, Ones(|row|)) <= |row| as real
    ensures WeightedScore(row, Ones(|row|)) == |row| as real <==> forall q | 0 <= q < |row| :: row[q] == 1
    decreases |row|
  {
    if |row| > 0 {
      assert Ones(|row|)[1..] == Ones(|row| - 1);
      UnitScoreBound(row[1..]);
      if forall q | 0 <= q < |row| - 1 :: row[1..][q] == 1 {
        assert forall q | 1 <= q < |row| :: row[q] == row[1..][q - 1];
      }
    }
  }

  /** Strict mode: with unit weights and the number of questions as the
      threshold, a 0/1 row is accepted exactly when every question matched. */
  lemma StrictAcceptance(row: seq<int>)
    requires ZeroOne(row)
    ensures VerdictOf(row, Ones(|row|), |row| as real).accepted <==> forall q | 0 <= q < |row| :: row[q] == 1
  {
    UnitScoreBound(row);
  }

  /** Each image's entry, before a later image with the same key replaces it. */
  lemma {:induction false} OutputUpToAt(rows: seq<seq<int>>, w: seq<real>, t: real, names: map<nat, string>, k: nat, i: nat)
    requires k <= |rows| && NamesCover(names, k)
    requires forall j | 0 <= j < |rows| :: |rows[j]| == |w|
    requires i < k
    requires forall j | i < j < k :: KeyOf(names, j) != KeyOf(names, i)
    ensures KeyOf(names, i) in OutputUpTo(rows, w, t, names, k)
    ensures OutputUpTo(rows, w, t, names, k)[KeyOf(names, i)] == VerdictOf(rows[i], w, t)
    decreases k
  {
    if i < k - 1 {
      OutputUpToAt(rows, w, t, names, k - 1, i);
    }
  }

  /** The output's keys are exactly the keys of the images. */
  lemma {:induction false} OutputUpToKeys(rows: seq<seq<int>>, w: seq<real>, t: real, names: map<nat, string>, k: nat)
    requires k <= |rows| && NamesCover(names, k)
    requires forall j | 0 <= j < |rows| :: |rows[j]| == |w|
    ensures OutputUpTo(rows, w, t, names, k).Keys == set j | 0 <= j < k :: KeyOf(names, j)
    decreases k
  {
    if k > 0 {
      OutputUpToKeys(rows, w, t, names, k - 1);
    }
  }

  /** No two images share a key: always so without a name map. */
  predicate DistinctKeys(names: map<nat, string>, n: nat)
    requires NamesCover(names, n)
  {
    forall i, j | 0 <= i < j < n :: KeyOf(names, i) != KeyOf(names, j)
  }

  /** With distinct keys the output has one entry per image. */
  lemma {:induction false} OutputUpToSize(rows: seq<seq<int>>, w: seq<real>, t: real, names: map<nat, string>, k: nat)
    requires k <= |rows| && NamesCover(names, k) && DistinctKeys(names, k)
    requires forall j | 0 <= j < |rows| :: |rows[j]| == |w|
    ensures |OutputUpTo(rows, w, t, names, k)| == k
    decreases k
  {
    if k > 0 {
      OutputUpToSize(rows, w, t, names, k - 1);
      OutputUpToKeys(rows, w, t, names, k - 1);
      assert KeyOf(names, k - 1) !in OutputUpTo(rows, w, t, names, k - 1);
    }
  }

  /** A successful evaluation is the formatted output of the score matrix. */
  lemma EvaluateOk<Image>(questions: seq<string>, expected: seq<seq<string>>, images: seq<Image>, batchSize: int,
                          weights: seq<real>, threshold: Option<real>, names: map<nat, string>,
                          gen: Generator<Image>, out: map<Key, Verdict>)
    requires Evaluate(questions, expected, images, batchSize, weights, threshold, names, gen) == Ok(out)
    ensures |questions| == |expected| == |weights| && Sum(weights) == 1.0 && batchSize != 0
    ensures batchSize > 0 ==> AnswersAligned(gen, images, questions, batchSize)
    ensures NamesCover(names, |images|)
    ensures out == OutputUpTo(Matrix(gen, images, questions, expected, batchSize), AppliedWeights(weights, threshold),
                              AppliedThreshold(threshold, |questions|), names, |images|)
  {
  }

  /** The output holds one entry per image, under its filename when a name
      map is given and under its index otherwise; with distinct keys there
      are exactly as many entries as images. */
  lemma EngineOutputKeys<Image>(questions: seq<string>, expected: seq<seq<string>>, images: seq<Image>, batchSize: int,
                                weights: seq<real>, threshold: Option<real>, names: map<nat, string>,
                                gen: Generator<Image>, out: map<Key, Verdict>)
    requires Evaluate(questions, expected, images, batchSize, weights, threshold, names, gen) == Ok(out)
    ensures NamesCover(names, |images|)
    ensures out.Keys == set i | 0 <= i < |images| :: KeyOf(names, i)
    ensures DistinctKeys(names, |images|) ==> |out| == |images|
    ensures |names| == 0 ==> out.Keys == set i | 0 <= i < |images| :: Index(i)
  {
    EvaluateOk(questions, expected, images, batchSize, weights, threshold, names, gen, out);
    var rows := Matrix(gen, images, questions, expected, batchSize);
    var w := AppliedWeights(weights, threshold);
    var t := AppliedThreshold(threshold, |questions|);
    OutputUpToKeys(rows, w, t, names, |images|);
    if DistinctKeys(names, |images|) {
      OutputUpToSize(rows, w, t, names, |images|);
    }
    if |names| == 0 {
      assert forall i | 0 <= i < |images| :: KeyOf(names, i) == Index(i);
    }
  }

  /** Row i of the matrix is a 0/1 vector whose cell q is 1 exactly when the
      answer generated for image i is one of the alternatives expected for
      question q; every answer exists once the counts are aligned. */
  lemma RowMeaning<Image>(questions: seq<string>, expected: seq<seq<string>>, images: seq<Image>, batchSize: int,
                          gen: Generator<Image>, i: nat)
    requires |questions| == |expected| && i < |images|
    requires batchSize > 0 ==> AnswersAligned(gen, images, questions, batchSize)
    ensures ZeroOne(Row(gen, images, questions, expected, batchSize, i))
    ensures forall q | 0 <= q < |questions| ::
      Row(gen, images, questions, expected, batchSize, i)[q] == 1 <==>
        batchSize > 0 && AnswerFor(gen, images, questions[q], batchSize, i) in expected[q]
    ensures batchSize > 0 ==> forall q | 0 <= q < |questions| ::
      i - ChunkOf(i, batchSize) < |WindowAnswers(gen, images, batchSize, ChunkOf(i, batchSize), questions[q])|
  {
    if batchSize > 0 {
      ChunkOfItem(|images|, batchSize, i);
      var s := ChunkOf(i, batchSize);
      forall q | 0 <= q < |questions|
        ensures i - s < |WindowAnswers(gen, images, batchSize, s, questions[q])|
      {
        assert WindowAligned(gen, images, questions, batchSize, s, q);
      }
    }
  }

  /** What the engine says about image i (when no later image shares its
      key): the results are the 0/1 membership of its generated answers in
      the expected alternatives, the score is their weighted sum, and the
      image is accepted exactly when the score reaches the threshold; in
      strict mode that means every question matched, in weighted mode that
      the sum weighted by the given weights reaches the given threshold. */
  lemma ImageVerdict<Image>(questions: seq<string>, expected: seq<seq<string>>, images: seq<Image>, batchSize: int,
                            weights: seq<real>, threshold: Option<real>, names: map<nat, string>,
                            gen: Generator<Image>, out: map<Key, Verdict>, i: nat)
    requires Evaluate(questions, expected, images, batchSize, weights, threshold, names, gen) == Ok(out)
    requires i < |images| && NamesCover(names, |images|)
    requires forall j | i < j < |images| :: KeyOf(names, j) != KeyOf(names, i)
    ensures KeyOf(names, i) in out
    ensures |out[KeyOf(names, i)].results| == |questions| == |weights|
    ensures ZeroOne(out[KeyOf(names, i)].results)
    ensures forall q | 0 <= q < |questions| ::
      out[KeyOf(names, i)].results[q] == 1 <==>
        batchSize > 0 && AnswerFor(gen, images, questions[q], batchSize, i) in expected[q]
    ensures out[KeyOf(names, i)].score == WeightedScore(out[KeyOf(names, i)].results, AppliedWeights(weights, threshold))
    ensures !Truthy(threshold) ==>
      (out[KeyOf(names, i)].accepted <==> forall q | 0 <= q < |questions| :: out[KeyOf(names, i)].results[q] == 1)
    ensures Truthy(threshold) ==>
      (out[KeyOf(names, i)].accepted <==> WeightedScore(out[KeyOf(names, i)].results, weights) >= threshold.value)
  {
    EvaluateOk(questions, expected, images, batchSize, weights, threshold, names, gen, out);
    var rows := Matrix(gen, images, questions, expected, batchSize);
    var w := AppliedWeights(weights, threshold);
    var t := AppliedThreshold(threshold, |questions|);
    OutputUpToAt(rows, w, t, names, |images|, i);
    var row := rows[i];
    assert row == Row(gen, images, questions, expected, batchSize, i);
    RowMeaning(questions, expected, images, batchSize, gen, i);
    assert out[KeyOf(names, i)] == VerdictOf(row, w, t);
    PolicyVerdict(row, weights, threshold);
  }

  /** The verdict on a 0/1 row under the policy the threshold selects. */
  lemma PolicyVerdict(row: seq<int>, weights: seq<real>, threshold: Option<real>)
    requires ZeroOne(row) && |row| == |weights|
    ensures var v := VerdictOf(row, AppliedWeights(weights, threshold), AppliedThreshold(threshold, |weights|));
            && v.results == row
            && v.score == WeightedScore(row, AppliedWeights(weights, threshold))
            && (!Truthy(threshold) ==> (v.accepted <==> forall q | 0 <= q < |row| :: row[q] == 1))
            && (Truthy(threshold) ==> (v.accepted <==> WeightedScore(row, weights) >= threshold.value))
  {
    if !Truthy(threshold) {
      StrictAcceptance(row);
    }
  }

  /** The length and weight-sum assertions fire before any generation: their
      outcome does not depend on the images, the batch size or the model. */
  lemma ValidationBeforeGeneration<Image>(questions: seq<string>, expected: seq<seq<string>>, weights: seq<real>,
                                          threshold: Option<real>, names: map<nat, string>,
                                          images: seq<Image>, batchSize: int, gen: Generator<Image>)
    requires |questions| != |expected| || |questions| != |weights| || Sum(weights) != 1.0
    ensures Evaluate(questions, expected, images, batchSize, weights, threshold, names, gen)
      == (if |questions| != |expected| || |questions| != |weights| then Err(LengthMismatch) else Err(WeightsNotNormalised))
  {
  }

  /** No images: no window, no generation, an empty output (once the
      arguments pass validation). */
  lemma NoImagesNoOutput<Image>(questions: seq<string>, expected: seq<seq<string>>, batchSize: int,
                                weights: seq<real>, threshold: Option<real>, names: map<nat, string>,
                                gen: Generator<Image>)
    requires |questions| == |expected| == |weights| && Sum(weights) == 1.0 && batchSize != 0
    ensures Evaluate(questions, expected, [], batchSize, weights, threshold, names, gen) == Ok(map[])
  {
    if batchSize > 0 {
      assert Starts(0, batchSize) == [];
    }
  }

  /** VQAModel.__call__: validate, pick the policy, fill the score matrix
      window by window and question by question, then format one verdict
      per image. */
  method Call<Image>(questions: seq<string>, expected: seq<seq<string>>, images: seq<Image>, batchSize: int,
                     weights: seq<real>, threshold: Option<real>, names: map<nat, string>,
                     gen: Generator<Image>) returns (r: Result<map<Key, Verdict>>)
    ensures r == Evaluate(questions, expected, images, batchSize, weights, threshold, names, gen)
  {
    if |questions| != |expected| || |questions| != |weights| {
      return Err(LengthMismatch);
    }
    if Sum(weights) != 1.0 {
      return Err(WeightsNotNormalised);
    }
    var m, n := |questions|, |images|;
    var w, t := AppliedWeights(weights, threshold), AppliedThreshold(threshold, m);
    if batchSize == 0 {
      return Err(ZeroStep);
    }
    var scores := new int[n, m]((i, q) => 0);
    if batchSize > 0 {
      var ok := FillScores(scores, questions, expected, images, batchSize, gen);
      if !ok {
        return Err(AnswerCountMismatch);
      }
    }
    ghost var rows := Matrix(gen, images, questions, expected, batchSize);
    assert forall i, q | 0 <= i < n && 0 <= q < m :: scores[i, q] == rows[i][q];
    r := FormatOutput(scores, w, t, names, rows);
  }

  /** The formatting loop of lines 84-94: one entry per image, keyed by its
      filename (or index), holding its row, weighted score and decision. */
  method FormatOutput(scores: array2<int>, w: seq<real>, t: real, names: map<nat, string>, ghost rows: seq<seq<int>>)
    returns (r: Result<map<Key, Verdict>>)
    requires scores.Length0 == |rows| && scores.Length1 == |w|
    requires forall i | 0 <= i < |rows| :: |rows[i]| == |w|
    requires forall i, q | 0 <= i < |rows| && 0 <= q < |w| :: scores[i, q] == rows[i][q]
    ensures !NamesCover(names, |rows|) ==> r == Err(MissingKey)
    ensures NamesCover(names, |rows|) ==> r == Ok(OutputUpTo(rows, w, t, names, |rows|))
  {
    var n, m := scores.Length0, scores.Length1;
    var output: map<Key, Verdict> := map[];
    var idx := 0;
    while idx < n
      invariant 0 <= idx <= n && NamesCover(names, idx)
      invariant output == OutputUpTo(rows, w, t, names, idx)
    {
      if |names| > 0 && idx !in names {
        return Err(MissingKey);
      }
      var key := if |names| > 0 then Name(names[idx]) else Index(idx);
      var row := ReadRow(scores, idx, rows);
      var score := WeightedScore(row, w);
      OutputUpToStep(rows, w, t, names, idx);
      output := output[key := Verdict(row, score, score >= t)];
      idx := idx + 1;
    }
    return Ok(output);
  }

  /** One pass of the formatting loop: the next image's verdict is stored
      under its key. */
  lemma OutputUpToStep(rows: seq<seq<int>>, w: seq<real>, t: real, names: map<nat, string>, k: nat)
    requires k < |rows| && NamesCover(names, k) && (|names| > 0 ==> k in names)
    requires forall i | 0 <= i < |rows| :: |rows[i]| == |w|
    ensures NamesCover(names, k + 1)
    ensures OutputUpTo(rows, w, t, names, k + 1)
         == OutputUpTo(rows, w, t, names, k)[KeyOf(names, k) := VerdictOf(rows[k], w, t)]
  {
  }

  /** scores[idx].tolist(): the idx-th row of the score matrix. */
  method ReadRow(scores: array2<int>, idx: nat, ghost rows: seq<seq<int>>) returns (row: seq<int>)
    requires idx < scores.Length0 == |rows| && |rows[idx]| == scores.Length1
    requires forall q | 0 <= q < scores.Length1 :: scores[idx, q] == rows[idx][q]
    ensures row == rows[idx]
  {
    row := seq(scores.Length1, q requires 0 <= q < scores.Length1 reads scores => scores[idx, q]);
  }

  /** The nested loops of lines 55-69: for each window and each question,
      ask the generator once and write that window's cells of the question's
      column. Returns false where the answer-count assertion fails. */
  method FillScores<Image>(scores: array2<int>, questions: seq<string>, expected: seq<seq<string>>,
                           images: seq<Image>, size: nat, gen: Generator<Image>) returns (ok: bool)
    requires size > 0 && |questions| == |expected|
    requires scores.Length0 == |images| && scores.Length1 == |questions|
    modifies scores
    ensures ok == AnswersAligned(gen, images, questions, size)
    ensures ok ==> forall i, q | 0 <= i < |images| && 0 <= q < |questions| ::
      scores[i, q] == Cell(gen, images, questions, expected, size, i, q)
  {
    var n, m := |images|, |questions|;
    var start := 0;
    ghost var k := 0;
    while start < n
      invariant start == k * size
      invariant forall s, q | s in Starts(n, size) && s < start && 0 <= q < m ::
        WindowAligned(gen, images, questions, size, s, q)
      invariant forall i, q | 0 <= i < start && i < n && 0 <= q < m ::
        scores[i, q] == Cell(gen, images, questions, expected, size, i, q)
    {
      var windowOk := FillWindow(scores, questions, expected, images, size, gen, start, k);
      if !windowOk {
        MultipleIsStart(n, size, k);
        return false;
      }
      forall s, q | s in Starts(n, size) && s < start + size && 0 <= q < m
        ensures WindowAligned(gen, images, questions, size, s, q)
      {
        if s >= start {
          StartsSpaced(n, size, s, k);
        }
      }
      start, k := start + size, k + 1;
    }
    return true;
  }

  /** One pass of the outer loop: every question for the window that starts
      at `start` (the k-th window). */
  method FillWindow<Image>(scores: array2<int>, questions: seq<string>, expected: seq<seq<string>>,
                           images: seq<Image>, size: nat, gen: Generator<Image>, start: nat, ghost k: nat)
    returns (ok: bool)
    requires size > 0 && |questions| == |expected| && start == k * size && start < |images|
    requires scores.Length0 == |images| && scores.Length1 == |questions|
    modifies scores
    ensures ok <==> forall q | 0 <= q < |questions| :: WindowAligned(gen, images, questions, size, start, q)
    ensures ok ==> forall i, q | start <= i < ChunkEnd(start, size, |images|) && 0 <= q < |questions| ::
      scores[i, q] == Cell(gen, images, questions, expected, size, i, q)
    ensures forall i, q | 0 <= i < start && 0 <= q < |questions| :: scores[i, q] == old(scores[i, q])
    ensures forall i, q | ChunkEnd(start, size, |images|) <= i < |images| && 0 <= q < |questions| ::
      scores[i, q] == old(scores[i, q])
  {
    var n, m := |images|, |questions|;
    var end := ChunkEnd(start, size, n);
    var q := 0;
    while q < m
      invariant 0 <= q <= m
      invariant forall q' | 0 <= q' < q :: WindowAligned(gen, images, questions, size, start, q')
      invariant forall i, q' | 0 <= i < start && 0 <= q' < m :: scores[i, q'] == old(scores[i, q'])
      invariant forall i, q' | end <= i < n && 0 <= q' < m :: scores[i, q'] == old(scores[i, q'])
      invariant forall i, q' | start <= i < end && 0 <= q' < q ::
        scores[i, q'] == Cell(gen, images, questions, expected, size, i, q')
    {
      var answers := gen(images[start..end], questions[q]);
      if |answers| != end - start {
        assert !WindowAligned(gen, images, questions, size, start, q);
        return false;
      }
      FillColumn(scores, questions, expected, images, size, gen, start, k, q, answers);
      q := q + 1;
    }
    return true;
  }

  /** scores[start:end, q] = answer_match (line 69). */
  method FillColumn<Image>(scores: array2<int>, questions: seq<string>, expected: seq<seq<string>>,
                           images: seq<Image>, size: nat, gen: Generator<Image>, start: nat, ghost k: nat,
                           q: nat, answers: seq<string>)
    requires size > 0 && |questions| == |expected| && start == k * size && start < |images| && q < |questions|
    requires scores.Length0 == |images| && scores.Length1 == |questions|
    requires answers == WindowAnswers(gen, images, size, start, questions[q])
    requires |answers| == ChunkEnd(start, size, |images|) - start
    modifies scores
    ensures forall i, q' | 0 <= i < |images| && 0 <= q' < |questions| && (q' != q || !(start <= i < ChunkEnd(start, size, |images|))) ::
      scores[i, q'] == old(scores[i, q'])
    ensures forall i | start <= i < ChunkEnd(start, size, |images|) ::
      scores[i, q] == Cell(gen, images, questions, expected, size, i, q)
  {
    var end := ChunkEnd(start, size, |images|);
    var j := start;
    while j < end
      invariant start <= j <= end
      invariant forall i, q' | 0 <= i < |images| && 0 <= q' < |questions| && (q' != q || !(start <= i < j)) ::
        scores[i, q'] == old(scores[i, q'])
      invariant forall i | start <= i < j :: scores[i, q] == Cell(gen, images, questions, expected, size, i, q)
    {
      DivUnique(j, size, k);
      scores[j, q] := MatchValue(answers[j - start], expected[q]);
      j := j + 1;
    }
  }
}
