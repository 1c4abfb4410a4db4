/** calculate_metrics: the confusion counts of a list of predicted-positive
    image ids against a map of true labels, and the four guarded ratios
    derived from them. Python's float division is modelled by `real`. */
module Metrics {
  import opened Builtins

  /** The parsed labels file: image id to its label (1 means positive). */
  type Labels = map<string, int>

  datatype Counts = Counts(tp: int, fp: int, fn: int, tn: int)

  datatype Scores = Scores(accuracy: real, precision: real, recall: real, f1: real)

  /** Every predicted id has a label, so `true_labels[id]` never raises. */
  predicate Labelled(pos: seq<string>, labels: Labels) {
    forall id | id in pos :: id in labels
  }

  predicate Distinct(pos: seq<string>) {
    forall i, j | 0 <= i < j < |pos| :: pos[i] != pos[j]
  }

  /** The ids whose label is 1. */
  function Positives(labels: Labels): set<string> {
    set id | id in labels && labels[id] == 1
  }

  /** The ids predicted positive, as a set. */
  function Predicted(pos: seq<string>): set<string> {
    set id | id in pos
  }

  /** TP: one for every entry of the prediction list, duplicates included,
      whose label is 1. */
  function TruePositives(pos: seq<string>, labels: Labels): (tp: nat)
    requires Labelled(pos, labels)
    ensures tp <= |pos|
  {
    if |pos| == 0 then 0
    else (if labels[pos[0]] == 1 then 1 else 0) + TruePositives(pos[1..], labels)
  }

  /** FN: the positive ids that were not predicted. */
  function FalseNegatives(pos: seq<string>, labels: Labels): (fn: nat)
    ensures fn <= |Positives(labels)|
  {
    var missed := set id | id in labels && labels[id] == 1 && id !in pos;
    assert missed <= Positives(labels);
    assert |missed| <= |Positives(labels)| by {
      assert Positives(labels) == missed + (Positives(labels) - missed);
    }
    |missed|
  }

  /** The four counts: FP and TN are derived by subtraction, so the table
      always adds up to the prediction count and the label count. */
  function CountsOf(pos: seq<string>, labels: Labels): (c: Counts)
    requires Labelled(pos, labels)
    ensures c.tp + c.fp == |pos|
    ensures c.tp + c.fp + c.fn + c.tn == |labels|
    ensures 0 <= c.tp && 0 <= c.fp && 0 <= c.fn
  {
    var tp := TruePositives(pos, labels);
    var fp := |pos| - tp;
    var fn := FalseNegatives(pos, labels);
    Counts(tp, fp, fn, |labels| - tp - fn - fp)
  }

  /** `num / den if den != 0 else 0`. */
  function Ratio(num: real, den: real): real {
    if den != 0.0 then num / den else 0.0
  }

  /** The four ratios of a confusion table with at least one cell filled:
      accuracy unguarded, precision, recall and F1 guarded against a zero
      denominator. */
  function ScoresOf(c: Counts): (s: Scores)
    requires 0 <= c.tp && 0 <= c.fp && 0 <= c.fn && c.tp + c.tn + c.fp + c.fn != 0
    ensures 0.0 <= s.precision <= 1.0
    ensures 0.0 <= s.recall <= 1.0
    ensures 0.0 <= s.f1 <= 1.0
  {
    var precision := Ratio(c.tp as real, (c.tp + c.fp) as real);
    var recall := Ratio(c.tp as real, (c.tp + c.fn) as real);
    RatioUnit(c.tp as real, (c.tp + c.fp) as real);
    RatioUnit(c.tp as real, (c.tp + c.fn) as real);
    HarmonicUnit(precision, recall);
    Scores((c.tp + c.tn) as real / (c.tp + c.tn + c.fp + c.fn) as real,
           precision, recall, Ratio(2.0 * precision * recall, precision + recall))
  }

  /** calculate_metrics with the labels already loaded: a KeyError for a
      prediction without a label, a ZeroDivisionError for an empty label
      map, otherwise accuracy, precision, recall and F1. */
  function CalculateMetrics(pos: seq<string>, labels: Labels): (r: Result<Scores>)
    ensures r.Err? <==> !Labelled(pos, labels) || |labels| == 0
    ensures r.Err? ==> r.error == if Labelled(pos, labels) then ZeroDivision else MissingKey
    ensures r.Ok? ==> 0.0 <= r.value.precision <= 1.0
    ensures r.Ok? ==> 0.0 <= r.value.recall <= 1.0
    ensures r.Ok? ==> 0.0 <= r.value.f1 <= 1.0
  {
    if !Labelled(pos, labels) then Err(MissingKey)
    else
      var c := CountsOf(pos, labels);
      if c.tp + c.tn + c.fp + c.fn == 0 then Err(ZeroDivision)
      else Ok(ScoresOf(c))
  }

  /** A count over a larger count is a fraction in [0, 1]. */
  lemma RatioUnit(num: real, den: real)
    requires 0.0 <= num <= den
    ensures 0.0 <= Ratio(num, den) <= 1.0
  {
    if den != 0.0 {
      assert Ratio(num, den) * den == num;
    }
  }

  /** The product of two non-negative reals is non-negative. */
  lemma MulNonNegative(a: real, b: real)
    requires 0.0 <= a && 0.0 <= b
    ensures 0.0 <= a * b
  {
  }

  /** The harmonic mean of two fractions is a fraction. */
  lemma HarmonicUnit(p: real, r: real)
    requires 0.0 <= p <= 1.0 && 0.0 <= r <= 1.0
    ensures 0.0 <= Ratio(2.0 * p * r, p + r) <= 1.0
  {
    if p + r != 0.0 {
      MulNonNegative(p, 1.0 - r);
      MulNonNegative(r, 1.0 - p);
      MulNonNegative(p, r);
      assert 2.0 * p * r <= p + r;
      RatioUnit(2.0 * p * r, p + r);
    }
  }

  lemma {:induction false} PredictedCard(pos: seq<string>)
    requires Distinct(pos)
    ensures |Predicted(pos)| == |pos|
  {
    if |pos| > 0 {
      PredictedCard(pos[1..]);
      assert Predicted(pos) == {pos[0]} + Predicted(pos[1..]);
      assert pos[0] !in Predicted(pos[1..]);
    }
  }

  /** Without duplicates, TP is the number of predicted ids that are positive. */
  lemma {:induction false} TruePositivesDistinct(pos: seq<string>, labels: Labels)
    requires Labelled(pos, labels) && Distinct(pos)
    ensures TruePositives(pos, labels) == |Predicted(pos) * Positives(labels)|
  {
    if |pos| == 0 {
      assert Predicted(pos) == {};
    } else {
      var rest := pos[1..];
      TruePositivesDistinct(rest, labels);
      assert Predicted(pos) == {pos[0]} + Predicted(rest);
      assert pos[0] !in Predicted(rest);
      assert pos[0] in Positives(labels) <==> labels[pos[0]] == 1;
      AddOneHit(pos[0], Predicted(rest), Positives(labels));
    }
  }

  /** Adding one new element to a set adds one to its overlap with another
      set exactly when the element is in that other set. */
  lemma AddOneHit<T>(x: T, rest: set<T>, good: set<T>)
    requires x !in rest
    ensures |({x} + rest) * good| == |rest * good| + (if x in good then 1 else 0)
  {
    if x in good {
      assert ({x} + rest) * good == {x} + rest * good;
    } else {
      assert ({x} + rest) * good == rest * good;
    }
  }

  /** For a duplicate-free prediction list every count is the size of one
      cell of the confusion table: TP and FP split the predictions, TP and
      FN split the positives, and TN is the unpredicted negatives. */
  lemma DistinctCounts(pos: seq<string>, labels: Labels)
    requires Labelled(pos, labels) && Distinct(pos)
    ensures CountsOf(pos, labels).tp == |Predicted(pos) * Positives(labels)|
    ensures CountsOf(pos, labels).fp == |Predicted(pos) - Positives(labels)|
    ensures CountsOf(pos, labels).fn == |Positives(labels) - Predicted(pos)|
    ensures CountsOf(pos, labels).tp + CountsOf(pos, labels).fn == |Positives(labels)|
    ensures CountsOf(pos, labels).tn == |labels.Keys - Positives(labels) - Predicted(pos)|
  {
    var pred, posv := Predicted(pos), Positives(labels);
    TruePositivesDistinct(pos, labels);
    PredictedCard(pos);
    var missed := set id | id in labels && labels[id] == 1 && id !in pos;
    assert missed == posv - pred;
    assert pred <= labels.Keys && posv <= labels.Keys;
    ConfusionCells(labels.Keys, posv, pred);
  }

  /** The four cells of a confusion table partition the labelled ids. */
  lemma ConfusionCells<T>(keys: set<T>, positive: set<T>, predicted: set<T>)
    requires positive <= keys && predicted <= keys
    ensures |predicted| == |predicted * positive| + |predicted - positive|
    ensures |positive| == |positive * predicted| + |positive - predicted|
    ensures |keys| == |positive| + |predicted - positive| + |keys - positive - predicted|
  {
    assert predicted == (predicted * positive) + (predicted - positive);
    assert positive == (positive * predicted) + (positive - predicted);
    assert keys == (keys - positive - predicted) + (positive + (predicted - positive));
  }


  /** For a duplicate-free prediction list the accuracy is the share of
      labels the predictions get right, a fraction in [0, 1]. */
  lemma DistinctAccuracy(pos: seq<string>, labels: Labels)
    requires Labelled(pos, labels) && Distinct(pos) && |labels| > 0
    ensures CalculateMetrics(pos, labels).Ok?
    ensures var correct := |Predicted(pos) * Positives(labels)| + |labels.Keys - Positives(labels) - Predicted(pos)|;
            CalculateMetrics(pos, labels).value.accuracy == correct as real / |labels| as real
    ensures 0.0 <= CalculateMetrics(pos, labels).value.accuracy <= 1.0
  {
    DistinctCounts(pos, labels);
    var c := CountsOf(pos, labels);
    assert 0 <= c.tn;
    RatioUnit((c.tp + c.tn) as real, |labels| as real);
  }

  /** Precision is 1 exactly when there are hits and no false positives,
      recall is 1 exactly when there are hits and no misses, and both are 0
      exactly when there are no hits. */
  lemma ScoreExtremes(c: Counts)
    requires 0 <= c.tp && 0 <= c.fp && 0 <= c.fn && c.tp + c.tn + c.fp + c.fn != 0
    ensures ScoresOf(c).precision == 1.0 <==> c.tp > 0 && c.fp == 0
    ensures ScoresOf(c).recall == 1.0 <==> c.tp > 0 && c.fn == 0
    ensures ScoresOf(c).precision == 0.0 <==> c.tp == 0
    ensures ScoresOf(c).recall == 0.0 <==> c.tp == 0
  {
    var t, a, b := c.tp as real, (c.tp + c.fp) as real, (c.tp + c.fn) as real;
    if c.tp > 0 {
      assert ScoresOf(c).precision == t / a && ScoresOf(c).recall == t / b;
      assert (t / a) * a == t && (t / b) * b == t;
      assert 0.0 < t / a && 0.0 < t / b;
    }
  }

  /** For a duplicate-free prediction list, precision is the share of the
      predicted ids that are positive and recall the share of the positive
      ids that were predicted; each is 0 when its denominator is empty. */
  lemma DistinctPrecisionRecall(pos: seq<string>, labels: Labels)
    requires Labelled(pos, labels) && Distinct(pos) && |labels| > 0
    ensures CalculateMetrics(pos, labels).Ok?
    ensures var hits := |Predicted(pos) * Positives(labels)|;
            CalculateMetrics(pos, labels).value.precision
              == if |Predicted(pos)| == 0 then 0.0 else hits as real / |Predicted(pos)| as real
    ensures var hits := |Predicted(pos) * Positives(labels)|;
            CalculateMetrics(pos, labels).value.recall
              == if |Positives(labels)| == 0 then 0.0 else hits as real / |Positives(labels)| as real
  {
    DistinctCounts(pos, labels);
    PredictedCard(pos);
  }

  /** F1 in closed form: 2 TP / (2 TP + FP + FN), and 0 without true positives. */
  lemma F1Closed(pos: seq<string>, labels: Labels)
    requires Labelled(pos, labels) && |labels| > 0
    ensures var c := CountsOf(pos, labels);
            CalculateMetrics(pos, labels).value.f1
              == if c.tp == 0 then 0.0 else (2 * c.tp) as real / (2 * c.tp + c.fp + c.fn) as real
  {
    F1OfCounts(CountsOf(pos, labels));
  }

  /** The guarded harmonic mean of the guarded precision and recall of a
      table is 2 TP / (2 TP + FP + FN), or 0 without true positives. */
  lemma F1OfCounts(c: Counts)
    requires 0 <= c.tp && 0 <= c.fp && 0 <= c.fn && c.tp + c.tn + c.fp + c.fn != 0
    ensures ScoresOf(c).f1 == if c.tp == 0 then 0.0 else (2 * c.tp) as real / (2 * c.tp + c.fp + c.fn) as real
  {
    var t, a, b := c.tp as real, (c.tp + c.fp) as real, (c.tp + c.fn) as real;
    if c.tp > 0 {
      HarmonicOfRatios(t, a, b);
    }
  }

  /** 2 (t/a)(t/b) / (t/a + t/b) == 2t / (a + b) for positive t, a, b. */
  lemma HarmonicOfRatios(t: real, a: real, b: real)
    requires 0.0 < t && 0.0 < a && 0.0 < b
    ensures Ratio(2.0 * (t / a) * (t / b), t / a + t / b) == (2.0 * t) / (a + b)
  {
    var p, r := t / a, t / b;
    assert p * a == t && r * b == t;
    assert 0.0 < p && 0.0 < r;
    var h := (2.0 * p * r) / (p + r);
    assert h * (p + r) == 2.0 * p * r;
    assert (p + r) * a * b == t * (a + b) by {
      assert p * a * b == t * b;
      assert r * a * b == t * a;
    }
    assert h * t * (a + b) == 2.0 * p * r * a * b;
    assert 2.0 * p * r * a * b == 2.0 * t * t;
    assert h * (a + b) == 2.0 * t;
  }

  /** Two of four labelled images are positive and the predictions catch one
      positive and one negative: every metric is one half. */
  lemma HalfExample()
    ensures CalculateMetrics(["a", "b"], map["a" := 1, "b" := 0, "c" := 1, "d" := 0])
         == Ok(Scores(0.5, 0.5, 0.5, 0.5))
  {
    var labels := map["a" := 1, "b" := 0, "c" := 1, "d" := 0];
    var pos := ["a", "b"];
    assert pos[1..] == ["b"] && pos[1..][1..] == [];
    assert TruePositives(pos, labels) == 1;
    var missed := set id | id in labels && labels[id] == 1 && id !in pos;
    assert missed == {"c"};
    assert |labels| == 4 by {
      assert labels.Keys == {"a", "b", "c", "d"};
    }
    assert CountsOf(pos, labels) == Counts(1, 1, 1, 1);
  }

  /** A prediction listed twice counts twice as a false positive, which
      drives TN and the accuracy below zero. */
  lemma DuplicatePredictionExample()
    ensures CountsOf(["a", "a"], map["a" := 0]) == Counts(0, 2, 0, -1)
    ensures CalculateMetrics(["a", "a"], map["a" := 0]) == Ok(Scores(-1.0, 0.0, 0.0, 0.0))
  {
    var labels := map["a" := 0];
    var pos := ["a", "a"];
    assert pos[1..] == ["a"] && pos[1..][1..] == [];
    var missed := set id | id in labels && labels[id] == 1 && id !in pos;
    assert missed == {};
  }
}
