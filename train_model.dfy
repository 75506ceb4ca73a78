/**
 * Threshold selection and evaluation of etl/modeling/41_train_churn_model.py:
 * `pick_threshold_by_recall` scans a precision/recall curve for the first
 * point meeting both floors and otherwise takes the first F1 maximum;
 * `evaluate_at_threshold` counts the confusion matrix of the thresholded
 * probabilities; `train_and_eval_models` binds each model to its threshold
 * and to the training columns.
 *
 * The classifiers, `predict_proba`, `precision_recall_curve` and
 * `roc_auc_score` are library code: their outputs are parameters.
 */
module TrainModel {
  import opened Common
  import opened Frames

  /** The floors both models are tuned with. */
  const MinRecall: real := 0.60
  const MinPrecision: real := 0.15

  /** The three arrays of `precision_recall_curve`. */
  datatype Curve = Curve(precisions: seq<real>, recalls: seq<real>, thresholds: seq<real>)

  /** Every threshold has its precision and recall point (the curve has one point more). */
  predicate CurveShape(c: Curve)
  {
    |c.thresholds| < |c.precisions| && |c.thresholds| < |c.recalls|
  }

  datatype PickError = EmptyCurve // np.argmax of an empty list raises ValueError

  /** Point `i` meets both floors. */
  predicate Qualifies(c: Curve, i: nat, minRecall: real, minPrecision: real)
    requires CurveShape(c) && i < |c.thresholds|
  {
    c.recalls[i] >= minRecall && c.precisions[i] >= minPrecision
  }

  /** The first index at or after `i` meeting both floors, if any. */
  function FirstHit(c: Curve, minRecall: real, minPrecision: real, i: nat): (k: Option<nat>)
    requires CurveShape(c) && i <= |c.thresholds|
    ensures k.Some? ==> i <= k.value < |c.thresholds| && Qualifies(c, k.value, minRecall, minPrecision)
    ensures k.Some? ==> forall j :: i <= j < k.value ==> !Qualifies(c, j, minRecall, minPrecision)
    ensures k.None? ==> forall j :: i <= j < |c.thresholds| ==> !Qualifies(c, j, minRecall, minPrecision)
    decreases |c.thresholds| - i
  {
    if i == |c.thresholds| then None
    else if Qualifies(c, i, minRecall, minPrecision) then Some(i)
    else FirstHit(c, minRecall, minPrecision, i + 1)
  }

  /** A qualifying index with none before it is the first hit. */
  lemma {:induction false} FirstHitIsFirst(c: Curve, minRecall: real, minPrecision: real, i: nat, k: nat)
    requires CurveShape(c) && i <= k < |c.thresholds|
    requires Qualifies(c, k, minRecall, minPrecision)
    requires forall j :: i <= j < k ==> !Qualifies(c, j, minRecall, minPrecision)
    ensures FirstHit(c, minRecall, minPrecision, i) == Some(k)
    decreases k - i
  {
    if i < k { FirstHitIsFirst(c, minRecall, minPrecision, i + 1, k); }
  }

  /** F1 of one point, 0 when precision and recall are both 0. */
  function F1(p: real, r: real): real
  {
    if p + r > 0.0 then 2.0 * p * r / (p + r) else 0.0
  }

  /** The fallback's `f1s` list: one score per threshold. */
  function F1s(c: Curve): (f: seq<real>)
    requires CurveShape(c)
    ensures |f| == |c.thresholds|
    ensures forall j :: 0 <= j < |f| ==> f[j] == F1(c.precisions[j], c.recalls[j])
  {
    seq(|c.thresholds|, j requires 0 <= j < |c.thresholds| => F1(c.precisions[j], c.recalls[j]))
  }

  /** The index `pick_threshold_by_recall` returns the threshold of. */
  function PickIndex(c: Curve, minRecall: real, minPrecision: real): Result<nat, PickError>
    requires CurveShape(c)
  {
    var hit := FirstHit(c, minRecall, minPrecision, 0);
    if hit.Some? then Ok(hit.value)
    else if |c.thresholds| == 0 then Err(EmptyCurve)
    else Ok(FirstArgMax(F1s(c)))
  }

  /** `pick_threshold_by_recall` as a value. */
  function Pick(c: Curve, minRecall: real, minPrecision: real): (t: Result<real, PickError>)
    requires CurveShape(c)
    ensures t.Ok? <==> |c.thresholds| > 0
    ensures t.Ok? ==> t.value in c.thresholds
  {
    var k := PickIndex(c, minRecall, minPrecision);
    if k.Err? then Err(k.error) else Ok(c.thresholds[k.value])
  }

  /**
   * `pick_threshold_by_recall`: the first-hit scan and, when no point
   * qualifies, the F1 list and its first maximum.
   */
  method PickThresholdByRecall(c: Curve, minRecall: real, minPrecision: real) returns (t: Result<real, PickError>)
    requires CurveShape(c)
    ensures t == Pick(c, minRecall, minPrecision)
    ensures FirstHit(c, minRecall, minPrecision, 0).Some? ==>
      t == Ok(c.thresholds[FirstHit(c, minRecall, minPrecision, 0).value])
  {
    var n := |c.thresholds|;
    var best: Option<nat> := None;
    var i := 0;
    while i < n
      invariant 0 <= i <= n
      invariant best.None?
      invariant forall j :: 0 <= j < i ==> !Qualifies(c, j, minRecall, minPrecision)
    {
      if c.recalls[i] >= minRecall && c.precisions[i] >= minPrecision {
        FirstHitIsFirst(c, minRecall, minPrecision, 0, i);
        best := Some(i);
        break;
      }
      i := i + 1;
    }
    if best.Some? {
      return Ok(c.thresholds[best.value]);
    }

    var f1s: seq<real> := [];
    i := 0;
    while i < n
      invariant 0 <= i <= n
      invariant |f1s| == i
      invariant forall j :: 0 <= j < i ==> f1s[j] == F1(c.precisions[j], c.recalls[j])
    {
      var p := c.precisions[i];
      var r := c.recalls[i];
      if p + r > 0.0 {
        f1s := f1s + [2.0 * p * r / (p + r)];
      } else {
        f1s := f1s + [0.0];
      }
      i := i + 1;
    }
    if |f1s| == 0 {
      return Err(EmptyCurve);
    }
    assert f1s == F1s(c);
    t := Ok(c.thresholds[FirstArgMax(f1s)]);
  }

  // ---------------------------------------------------------------------
  // What the threshold search promises

  /**
   * When some point meets both floors, the result is the threshold of the
   * first such point; only points that have a threshold are looked at.
   */
  lemma PickIsFirstQualifying(c: Curve, minRecall: real, minPrecision: real)
    requires CurveShape(c)
    ensures (exists i :: 0 <= i < |c.thresholds| && Qualifies(c, i, minRecall, minPrecision)) ==>
      exists k :: 0 <= k < |c.thresholds| && Pick(c, minRecall, minPrecision) == Ok(c.thresholds[k])
        && Qualifies(c, k, minRecall, minPrecision)
        && forall j :: 0 <= j < k ==> !Qualifies(c, j, minRecall, minPrecision)
  {
    var hit := FirstHit(c, minRecall, minPrecision, 0);
    if hit.Some? {
      assert Pick(c, minRecall, minPrecision) == Ok(c.thresholds[hit.value]);
    }
  }

  /**
   * When no point meets both floors, the result is the threshold at the
   * first index of maximal F1.
   */
  lemma PickFallsBackToF1(c: Curve, minRecall: real, minPrecision: real)
    requires CurveShape(c)
    requires forall i :: 0 <= i < |c.thresholds| ==> !Qualifies(c, i, minRecall, minPrecision)
    ensures |c.thresholds| > 0 ==>
      exists k :: 0 <= k < |c.thresholds| && Pick(c, minRecall, minPrecision) == Ok(c.thresholds[k])
        && (forall j :: 0 <= j < |c.thresholds| ==> F1(c.precisions[j], c.recalls[j]) <= F1(c.precisions[k], c.recalls[k]))
        && (forall j :: 0 <= j < k ==> F1(c.precisions[j], c.recalls[j]) < F1(c.precisions[k], c.recalls[k]))
  {
    var hit := FirstHit(c, minRecall, minPrecision, 0);
    if hit.Some? {
      assert false;
    } else if |c.thresholds| > 0 {
      var k := FirstArgMax(F1s(c));
      assert Pick(c, minRecall, minPrecision) == Ok(c.thresholds[k]);
    }
  }

  /**
   * Points past the last threshold are never consulted: two curves that
   * agree on the thresholds and on the points that have one pick alike.
   */
  lemma PickIgnoresLastPoint(c: Curve, d: Curve, minRecall: real, minPrecision: real)
    requires CurveShape(c) && CurveShape(d) && c.thresholds == d.thresholds
    requires forall i :: 0 <= i < |c.thresholds| ==>
      c.precisions[i] == d.precisions[i] && c.recalls[i] == d.recalls[i]
    ensures Pick(c, minRecall, minPrecision) == Pick(d, minRecall, minPrecision)
  {
    FirstHitAgrees(c, d, minRecall, minPrecision, 0);
    assert F1s(c) == F1s(d);
  }

  lemma {:induction false} FirstHitAgrees(c: Curve, d: Curve, minRecall: real, minPrecision: real, i: nat)
    requires CurveShape(c) && CurveShape(d) && c.thresholds == d.thresholds
    requires forall j :: 0 <= j < |c.thresholds| ==>
      c.precisions[j] == d.precisions[j] && c.recalls[j] == d.recalls[j]
    requires i <= |c.thresholds|
    ensures FirstHit(c, minRecall, minPrecision, i) == FirstHit(d, minRecall, minPrecision, i)
    decreases |c.thresholds| - i
  {
    if i < |c.thresholds| { FirstHitAgrees(c, d, minRecall, minPrecision, i + 1); }
  }

  /**
   * Raising either floor never selects an earlier index, as long as the
   * raised floors can still be met.
   */
  lemma RaisingFloorsNeverEarlier(c: Curve, r1: real, p1: real, r2: real, p2: real)
    requires CurveShape(c)
    requires r1 <= r2 && p1 <= p2
    requires FirstHit(c, r2, p2, 0).Some?
    ensures FirstHit(c, r1, p1, 0).Some?
    ensures PickIndex(c, r1, p1).Ok? && PickIndex(c, r2, p2).Ok?
    ensures PickIndex(c, r1, p1).value <= PickIndex(c, r2, p2).value
  {
    var k2 := FirstHit(c, r2, p2, 0).value;
    assert Qualifies(c, k2, r1, p1);
    if FirstHit(c, r1, p1, 0).None? {
      assert false;
    }
  }

  /**
   * With ascending thresholds, as `precision_recall_curve` returns them, a
   * first hit is the lowest threshold meeting both floors.
   */
  lemma LowestQualifyingThreshold(c: Curve, minRecall: real, minPrecision: real)
    requires CurveShape(c)
    requires forall i, j :: 0 <= i < j < |c.thresholds| ==> c.thresholds[i] <= c.thresholds[j]
    ensures forall j :: 0 <= j < |c.thresholds| && Qualifies(c, j, minRecall, minPrecision) ==>
      Pick(c, minRecall, minPrecision).Ok? && Pick(c, minRecall, minPrecision).value <= c.thresholds[j]
  {
    var hit := FirstHit(c, minRecall, minPrecision, 0);
    forall j | 0 <= j < |c.thresholds| && Qualifies(c, j, minRecall, minPrecision)
      ensures Pick(c, minRecall, minPrecision).Ok? && Pick(c, minRecall, minPrecision).value <= c.thresholds[j]
    {
      assert hit.Some?;
      assert hit.value <= j;
    }
  }

  // ---------------------------------------------------------------------
  // evaluate_at_threshold

  datatype EvalError =
    | LengthMismatch // y_true and y_proba of different lengths
    | NotBinary      // roc_auc_score needs both classes 0 and 1 in y_true

  datatype Evaluation = Evaluation(
    threshold: real, auc: real,
    tn: nat, fp: nat, fn: nat, tp: nat,
    precision: real, recall: real, f1: real,
    supportPos: nat, supportNeg: nat)

  /** `(y_proba >= thresh).astype(int)`. */
  function Predict(proba: seq<real>, thresh: real): (pred: seq<int>)
    ensures |pred| == |proba|
    ensures forall i :: 0 <= i < |proba| ==> (pred[i] == 1 <==> proba[i] >= thresh)
    ensures forall i :: 0 <= i < |proba| ==> (pred[i] == 0 <==> proba[i] < thresh)
  {
    seq(|proba|, i requires 0 <= i < |proba| => if proba[i] >= thresh then 1 else 0)
  }

  /** Pairs (true label, predicted label), row by row. */
  function Outcomes(y: seq<int>, pred: seq<int>): (o: seq<(int, int)>)
    requires |y| == |pred|
    ensures |o| == |y| && forall i :: 0 <= i < |y| ==> o[i] == (y[i], pred[i])
  {
    seq(|y|, i requires 0 <= i < |y| => (y[i], pred[i]))
  }

  predicate IsTN(o: (int, int)) { o.0 == 0 && o.1 == 0 }
  predicate IsFP(o: (int, int)) { o.0 == 0 && o.1 == 1 }
  predicate IsFN(o: (int, int)) { o.0 == 1 && o.1 == 0 }
  predicate IsTP(o: (int, int)) { o.0 == 1 && o.1 == 1 }
  predicate IsPos(o: (int, int)) { o.0 == 1 }
  predicate IsNeg(o: (int, int)) { o.0 == 0 }

  /** `a / b`, 0 when `b` is 0 (scikit-learn's zero-division result). */
  function Ratio(a: nat, b: nat): real
  {
    if b == 0 then 0.0 else a as real / b as real
  }

  /** Every label is 0 or 1 and both occur. */
  predicate BinaryLabels(y: seq<int>)
  {
    (forall i :: 0 <= i < |y| ==> y[i] == 0 || y[i] == 1) && 0 in y && 1 in y
  }

  /** `evaluate_at_threshold`; the AUC comes from `roc_auc_score`. */
  function Evaluate(y: seq<int>, proba: seq<real>, thresh: real, auc: real): Result<Evaluation, EvalError>
  {
    if |y| != |proba| then Err(LengthMismatch)
    else if !BinaryLabels(y) then Err(NotBinary)
    else
      var o := Outcomes(y, Predict(proba, thresh));
      var tn := Count(o, IsTN);
      var fp := Count(o, IsFP);
      var fn := Count(o, IsFN);
      var tp := Count(o, IsTP);
      var precision := Ratio(tp, tp + fp);
      var recall := Ratio(tp, tp + fn);
      Ok(Evaluation(thresh, auc, tn, fp, fn, tp, precision, recall, F1(precision, recall),
                    Count(o, IsPos), Count(o, IsNeg)))
  }

  /**
   * The confusion matrix covers every row once; its positive row sums to
   * the positive support and its negative row to the negative support.
   */
  lemma ConfusionSums(y: seq<int>, proba: seq<real>, thresh: real, auc: real)
    requires Evaluate(y, proba, thresh, auc).Ok?
    ensures var e := Evaluate(y, proba, thresh, auc).value;
      && e.tn + e.fp + e.fn + e.tp == |y|
      && e.tp + e.fn == e.supportPos
      && e.tn + e.fp == e.supportNeg
      && e.supportPos > 0 && e.supportNeg > 0
      && e.threshold == thresh
  {
    var o := Outcomes(y, Predict(proba, thresh));
    CountDisjointUnion(o, IsTP, IsFN, IsTPOrFN);
    CountCongruent(o, IsTPOrFN, IsPos);
    CountDisjointUnion(o, IsTN, IsFP, IsTNOrFP);
    CountCongruent(o, IsTNOrFP, IsNeg);
    CountComplement(o, IsPos, IsNotPos);
    CountCongruent(o, IsNotPos, IsNeg);
    var i :| 0 <= i < |y| && y[i] == 1;
    var j :| 0 <= j < |y| && y[j] == 0;
    CountZero(o, IsPos);
    CountZero(o, IsNeg);
    assert IsPos(o[i]) && IsNeg(o[j]);
  }

  predicate IsTPOrFN(o: (int, int)) { IsTP(o) || IsFN(o) }
  predicate IsTNOrFP(o: (int, int)) { IsTN(o) || IsFP(o) }
  predicate IsNotPos(o: (int, int)) { !IsPos(o) }

  // ---------------------------------------------------------------------
  // train_and_eval_models: the artifact bundle

  /**
   * What a fitted classifier contributes: its probabilities on the test
   * rows, the precision/recall curve of those probabilities, and their ROC
   * AUC. Fitting itself is not modelled.
   */
  datatype Scored = Scored(proba: seq<real>, curve: Curve, auc: real)

  /** The bundle `{model, threshold, features}` dumped per classifier. */
  datatype Artifact = Artifact(model: string, threshold: real, features: seq<string>)

  datatype Trained = Trained(evaluation: Evaluation, artifact: Artifact)

  datatype TrainError = NoThreshold | BadEvaluation(cause: EvalError)

  /** One classifier: threshold at the fixed floors, evaluation, artifact. */
  function TrainOne(model: string, xTrain: Table, yTest: seq<int>, s: Scored): Result<Trained, TrainError>
    requires CurveShape(s.curve)
  {
    var t := Pick(s.curve, MinRecall, MinPrecision);
    if t.Err? then Err(NoThreshold)
    else
      var e := Evaluate(yTest, s.proba, t.value, s.auc);
      if e.Err? then Err(BadEvaluation(e.error))
      else Ok(Trained(e.value, Artifact(model, e.value.threshold, Names(xTrain.cols))))
  }

  /** Logistic regression first, then the random forest; the first failure stops the run. */
  function TrainAndEvalModels(xTrain: Table, yTest: seq<int>, logreg: Scored, forest: Scored)
    : Result<(Trained, Trained), TrainError>
    requires CurveShape(logreg.curve) && CurveShape(forest.curve)
  {
    var a := TrainOne("LogisticRegression", xTrain, yTest, logreg);
    if a.Err? then Err(a.error)
    else
      var b := TrainOne("RandomForestClassifier", xTrain, yTest, forest);
      if b.Err? then Err(b.error)
      else Ok((a.value, b.value))
  }

  /**
   * Each saved artifact lists the training columns in order and carries the
   * evaluated threshold, which both classifiers pick with the same floors
   * (recall 0.60, precision 0.15) from their own curves.
   */
  lemma ArtifactsMatchEvaluation(xTrain: Table, yTest: seq<int>, logreg: Scored, forest: Scored)
    requires CurveShape(logreg.curve) && CurveShape(forest.curve)
    requires TrainAndEvalModels(xTrain, yTest, logreg, forest).Ok?
    ensures var (a, b) := TrainAndEvalModels(xTrain, yTest, logreg, forest).value;
      && a.artifact == Artifact("LogisticRegression", a.evaluation.threshold, Names(xTrain.cols))
      && b.artifact == Artifact("RandomForestClassifier", b.evaluation.threshold, Names(xTrain.cols))
      && Ok(a.evaluation.threshold) == Pick(logreg.curve, 0.60, 0.15)
      && Ok(b.evaluation.threshold) == Pick(forest.curve, 0.60, 0.15)
      && a.evaluation.threshold in logreg.curve.thresholds
      && b.evaluation.threshold in forest.curve.thresholds
  {
  }

  /** The run fails exactly when a curve has no thresholds or an evaluation fails. */
  lemma TrainFailures(xTrain: Table, yTest: seq<int>, logreg: Scored, forest: Scored)
    requires CurveShape(logreg.curve) && CurveShape(forest.curve)
    ensures TrainAndEvalModels(xTrain, yTest, logreg, forest).Ok? <==>
      && |logreg.curve.thresholds| > 0 && |forest.curve.thresholds| > 0
      && |yTest| == |logreg.proba| && |yTest| == |forest.proba|
      && BinaryLabels(yTest)
  {
  }
}
