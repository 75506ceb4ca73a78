/**
 * Batch scoring (etl/modeling/42_predict_churn.py): load the artifact
 * bundle, strip label columns from the input, align it to the training
 * feature list, threshold the model's probabilities and attach provenance,
 * and optionally keep the N highest-risk rows.
 */
module PredictChurn {
  import opened Common
  import opened Sorting
  import opened Frames

  /** What `joblib.load` returned, as far as `load_artifact` looks at it. */
  datatype Loaded =
    | NotADict
    | Dict(model: Option<string>, features: Option<seq<string>>, threshold: Option<real>)

  /** The unpacked bundle: the fitted classifier, its feature list and its threshold. */
  datatype Bundle = Bundle(model: string, features: seq<string>, threshold: real)

  datatype PredictError =
    | BadArtifact                 // not a dict, or no "model" / "features" key
    | MissingIdColumn(name: string)
    | IdColumnLost(name: string)  // the id was a label column and no feature put it back
    | LengthMismatch              // ids and probabilities of different lengths

  const DefaultThreshold: real := 0.5

  /** The columns that may carry labels and are removed before scoring. */
  const LabelColumns: seq<string> := ["churn_30d", "events_D7", "events_D30"]

  /** `load_artifact`: the checks on the bundle and the 0.5 default threshold. */
  function LoadArtifact(a: Loaded): (r: Result<Bundle, PredictError>)
    ensures r.Ok? <==> a.Dict? && a.model.Some? && a.features.Some?
    ensures r.Err? ==> r.error == BadArtifact
    ensures r.Ok? ==> r.value.model == a.model.value && r.value.features == a.features.value
    ensures r.Ok? && a.threshold.None? ==> r.value.threshold == DefaultThreshold
    ensures r.Ok? && a.threshold.Some? ==> r.value.threshold == a.threshold.value
  {
    if !a.Dict? || a.model.None? || a.features.None? then Err(BadArtifact)
    else Ok(Bundle(a.model.value, a.features.value,
                   if a.threshold.Some? then a.threshold.value else DefaultThreshold))
  }

  // ---------------------------------------------------------------------
  // Removing label columns

  /** Dropping each of `names` that is present, one after the other. */
  function DropAll(t: Table, names: seq<string>): (r: Table)
    ensures r.height == t.height
    ensures forall c :: c in r.cols <==> c in t.cols && c.name !in names
    decreases |names|
  {
    if names == [] then t
    else DropAll(DropColumn(t, names[0]), names[1..])
  }

  /** The label-stripping loop: each label column present is dropped in place. */
  method DropLabelsInPlace(df: DataFrame, names: seq<string>)
    modifies df
    ensures df.Value() == DropAll(old(df.Value()), names)
  {
    ghost var t0 := df.Value();
    var i := 0;
    while i < |names|
      invariant 0 <= i <= |names|
      invariant DropAll(df.Value(), names[i..]) == DropAll(t0, names)
    {
      ghost var before := df.Value();
      var col := names[i];
      if col in Names(df.cols) {
        df.DropInPlace(col);
      } else {
        DropAbsent(df.cols, col);
      }
      assert df.Value() == DropColumn(before, col);
      ghost var rest := names[i..];
      assert rest[0] == col && rest[1..] == names[i + 1..];
      assert DropAll(before, rest) == DropAll(df.Value(), names[i + 1..]);
      i := i + 1;
    }
  }

  /** A well-formed table stays well-formed when columns are dropped. */
  lemma {:induction false} DropAllWellFormed(t: Table, names: seq<string>)
    requires WellFormed(t)
    ensures WellFormed(DropAll(t, names))
    decreases |names|
  {
    if names != [] {
      DropWellFormed(t, names[0]);
      DropAllWellFormed(DropColumn(t, names[0]), names[1..]);
    }
  }

  /** Columns whose name is not dropped are found as before. */
  lemma DropAllGet(t: Table, names: seq<string>, n: string)
    requires WellFormed(t) && HasColumn(t, n) && n !in names
    ensures HasColumn(DropAll(t, names), n) && Get(DropAll(t, names), n) == Get(t, n)
  {
    var r := DropAll(t, names);
    DropAllWellFormed(t, names);
    GetOfMember(t, IndexOf(t.cols, n));
    GetOfIn(r, Get(t, n));
  }

  // ---------------------------------------------------------------------
  // align_features

  /** The table after the loop of `align_features`: each absent feature appended as zeros. */
  function WithMissing(t: Table, features: seq<string>): (r: Table)
    ensures r.height == t.height
    decreases |features|
  {
    if features == [] then t
    else
      var t1 := if HasColumn(t, features[0]) then t else Assign(t, Zeros(features[0], t.height));
      WithMissing(t1, features[1..])
  }

  /** `X = df[features]` after the loop. */
  function Align(t: Table, features: seq<string>): Table
  {
    WithMissingHas(t, features);
    Select(WithMissing(t, features), features)
  }

  /** Every feature has a column once the loop is done. */
  lemma WithMissingHas(t: Table, features: seq<string>)
    ensures forall n :: n in features ==> HasColumn(WithMissing(t, features), n)
  {
    forall n | n in features ensures HasColumn(WithMissing(t, features), n) {
      WithMissingGet(t, features, n);
    }
  }

  /**
   * After the loop a feature's column is the input's column when the input
   * had one, and integer zeros otherwise; the input's columns are untouched.
   */
  lemma {:induction false} WithMissingGet(t: Table, features: seq<string>, n: string)
    requires n in features || HasColumn(t, n)
    ensures HasColumn(WithMissing(t, features), n)
    ensures Get(WithMissing(t, features), n) ==
      if HasColumn(t, n) then Get(t, n) else Zeros(n, t.height)
    decreases |features|
  {
    if features != [] {
      var f := features[0];
      var z := Zeros(f, t.height);
      var t1 := if HasColumn(t, f) then t else Assign(t, z);
      if !HasColumn(t, f) {
        AssignGet(t, z);
        if n != f {
          AssignKeepsOthers(t, z, n);
        }
      }
      assert n in features[1..] || HasColumn(t1, n);
      WithMissingGet(t1, features[1..], n);
    }
  }

  /** Only new columns are added, after the input's own, which keep their places. */
  lemma {:induction false} WithMissingAppends(t: Table, features: seq<string>)
    ensures |WithMissing(t, features).cols| >= |t.cols|
    ensures WithMissing(t, features).cols[..|t.cols|] == t.cols
    decreases |features|
  {
    if features != [] {
      var t1 := if HasColumn(t, features[0]) then t else Assign(t, Zeros(features[0], t.height));
      WithMissingAppends(t1, features[1..]);
      assert t1.cols[..|t.cols|] == t.cols;
    }
  }

  /** `align_features`: fills in absent features on the caller's table, then selects. */
  method AlignFeatures(df: DataFrame, features: seq<string>) returns (x: Table)
    modifies df
    ensures df.Value() == WithMissing(old(df.Value()), features)
    ensures x == Align(old(df.Value()), features)
  {
    ghost var t0 := df.Value();
    for i := 0 to |features|
      invariant WithMissing(df.Value(), features[i..]) == WithMissing(t0, features)
    {
      assert features[i..] == [features[i]] + features[i + 1..];
      if features[i] !in Names(df.cols) {
        df.AssignInPlace(Zeros(features[i], df.height));
      }
    }
    assert features[|features|..] == [];
    WithMissingHas(t0, features);
    x := Select(df.Value(), features);
  }

  /**
   * The aligned table has exactly the feature columns in feature order:
   * a present feature is the input's column, an absent one integer zeros,
   * and any other input column is left out.
   */
  lemma AlignColumns(t: Table, features: seq<string>)
    ensures Names(Align(t, features).cols) == features
    ensures Align(t, features).height == t.height
    ensures forall i :: 0 <= i < |features| ==>
      (Align(t, features).cols[i] ==
         if HasColumn(t, features[i]) then Get(t, features[i]) else Zeros(features[i], t.height))
  {
    forall i | 0 <= i < |features|
      ensures Align(t, features).cols[i] ==
        if HasColumn(t, features[i]) then Get(t, features[i]) else Zeros(features[i], t.height)
    {
      WithMissingGet(t, features, features[i]);
    }
  }

  // ---------------------------------------------------------------------
  // The scored rows

  /** One row of the predictions file. */
  datatype PredRow = PredRow(
    id: Cell, proba: real, pred: int,
    thresholdUsed: real, modelFile: string, scoredAt: string)

  /** The predictions frame, row by row in input order. */
  function PredictionRows(ids: seq<Cell>, proba: seq<real>, threshold: real,
                          modelFile: string, scoredAt: string): (rows: seq<PredRow>)
    requires |ids| == |proba|
    ensures |rows| == |ids|
    ensures forall i :: 0 <= i < |ids| ==>
      && rows[i].id == ids[i] && rows[i].proba == proba[i]
      && (rows[i].pred == 1 <==> proba[i] >= threshold)
      && (rows[i].pred == 0 <==> proba[i] < threshold)
      && rows[i].thresholdUsed == threshold
      && rows[i].modelFile == modelFile && rows[i].scoredAt == scoredAt
  {
    seq(|ids|, i requires 0 <= i < |ids| =>
      PredRow(ids[i], proba[i], if proba[i] >= threshold then 1 else 0, threshold, modelFile, scoredAt))
  }

  // ---------------------------------------------------------------------
  // Top-N export

  /** Higher probability first. */
  predicate RiskierOrSame(a: PredRow, b: PredRow)
  {
    a.proba >= b.proba
  }

  lemma RiskierOrSamePreorder()
    ensures TotalPreorder(RiskierOrSame)
  {
  }

  /** `sort_values("proba_churn", ascending=False).head(n)`. */
  function TopN(rows: seq<PredRow>, n: nat): (top: seq<PredRow>)
    ensures |top| == if n < |rows| then n else |rows|
  {
    var s := SortBy(rows, RiskierOrSame);
    if n < |s| then s[..n] else s
  }

  /** `output_csv.replace(".csv", f"_top{n}.csv")`. */
  function TopPath(output: string, n: nat): string
  {
    ReplaceAll(output, ".csv", "_top" + NatToString(n) + ".csv")
  }

  /**
   * The exported rows are drawn from the predictions, come in non-increasing
   * probability, and no row left out is riskier than any row kept.
   */
  lemma TopNHighest(rows: seq<PredRow>, n: nat)
    ensures forall i, j :: 0 <= i < j < |TopN(rows, n)| ==> TopN(rows, n)[i].proba >= TopN(rows, n)[j].proba
    ensures multiset(TopN(rows, n)) <= multiset(rows)
    ensures forall r, x :: r in TopN(rows, n) && x in multiset(rows) - multiset(TopN(rows, n)) ==>
      x.proba <= r.proba
  {
    var s := SortBy(rows, RiskierOrSame);
    RiskierOrSamePreorder();
    SortBySorted(rows, RiskierOrSame);
    var k := if n < |s| then n else |s|;
    assert TopN(rows, n) == s[..k];
    SortedPrefixHighest(s, k);
  }

  /** Cutting a sorted sequence: the prefix is a sub-multiset and beats the rest. */
  lemma SortedPrefixHighest(s: seq<PredRow>, k: nat)
    requires Sorted(s, RiskierOrSame) && k <= |s|
    ensures multiset(s[..k]) <= multiset(s)
    ensures forall r, x :: r in s[..k] && x in multiset(s) - multiset(s[..k]) ==> x.proba <= r.proba
  {
    assert s == s[..k] + s[k..];
    assert multiset(s) - multiset(s[..k]) == multiset(s[k..]);
    var front, back := s[..k], s[k..];
    forall r, x | r in front && x in back ensures x.proba <= r.proba {
      var i :| 0 <= i < |front| && front[i] == r;
      var j :| 0 <= j < |back| && back[j] == x;
      assert RiskierOrSame(s[i], s[k + j]);
    }
  }

  /** A name ending in ".csv", with no other ".csv" in it, gets "_topN.csv" at the end. */
  lemma TopPathSuffix(stem: string, n: nat)
    requires forall i: nat :: i < |stem| ==> !OccursAt(stem + ".csv", ".csv", i)
    ensures TopPath(stem + ".csv", n) == stem + "_top" + NatToString(n) + ".csv"
  {
    ReplaceAllSuffix(stem, ".csv", "_top" + NatToString(n) + ".csv");
  }

  // ---------------------------------------------------------------------
  // predict

  /** What the scoring run writes: the predictions, and the top-N file when asked for. */
  datatype Scoring = Scoring(rows: seq<PredRow>, top: Option<(string, seq<PredRow>)>)

  /**
   * `predict`. The model's `predict_proba(X)[:, 1]` is the parameter `score`;
   * the wall-clock stamp is the parameter `scoredAt`.
   */
  function Predicted(loaded: Loaded, modelPath: string, t: Table, idCol: string, output: string,
                     topn: int, score: Table -> seq<real>, scoredAt: string): Result<Scoring, PredictError>
  {
    var b := LoadArtifact(loaded);
    if b.Err? then Err(b.error)
    else if !HasColumn(t, idCol) then Err(MissingIdColumn(idCol))
    else
      var stripped := DropAll(t, LabelColumns);
      var aligned := WithMissing(stripped, b.value.features);
      var proba := score(Align(stripped, b.value.features));
      if !HasColumn(aligned, idCol) then Err(IdColumnLost(idCol))
      else
        var ids := Get(aligned, idCol).cells;
        if |ids| != |proba| then Err(LengthMismatch)
        else
          var rows := PredictionRows(ids, proba, b.value.threshold, Basename(modelPath), scoredAt);
          Ok(Scoring(rows, if topn > 0 then Some((TopPath(output, topn), TopN(rows, topn))) else None))
  }

  /** The input table after a run: labels dropped and absent features added, once loading and the id check pass. */
  function InputAfter(loaded: Loaded, t: Table, idCol: string): Table
  {
    var b := LoadArtifact(loaded);
    if b.Err? || !HasColumn(t, idCol) then t
    else WithMissing(DropAll(t, LabelColumns), b.value.features)
  }

  method Predict(loaded: Loaded, modelPath: string, df: DataFrame, idCol: string, output: string,
                 topn: int, score: Table -> seq<real>, scoredAt: string) returns (r: Result<Scoring, PredictError>)
    modifies df
    ensures r == Predicted(loaded, modelPath, old(df.Value()), idCol, output, topn, score, scoredAt)
    ensures df.Value() == InputAfter(loaded, old(df.Value()), idCol)
  {
    var b := LoadArtifact(loaded);
    if b.Err? {
      return Err(b.error);
    }
    if idCol !in Names(df.cols) {
      return Err(MissingIdColumn(idCol));
    }
    DropLabelsInPlace(df, LabelColumns);
    var x := AlignFeatures(df, b.value.features);
    var proba := score(x);
    if idCol !in Names(df.cols) {
      return Err(IdColumnLost(idCol));
    }
    var ids := Get(df.Value(), idCol).cells;
    if |ids| != |proba| {
      return Err(LengthMismatch);
    }
    var rows := PredictionRows(ids, proba, b.value.threshold, Basename(modelPath), scoredAt);
    var top := None;
    if topn > 0 {
      top := Some((TopPath(output, topn), TopN(rows, topn)));
    }
    r := Ok(Scoring(rows, top));
  }

  // ---------------------------------------------------------------------
  // What a run promises

  /** A run fails on a bad bundle first, then on a missing id column. */
  lemma PredictErrors(loaded: Loaded, modelPath: string, t: Table, idCol: string, output: string,
                      topn: int, score: Table -> seq<real>, scoredAt: string)
    ensures LoadArtifact(loaded).Err? ==>
      Predicted(loaded, modelPath, t, idCol, output, topn, score, scoredAt) == Err(BadArtifact)
    ensures LoadArtifact(loaded).Ok? && !HasColumn(t, idCol) ==>
      Predicted(loaded, modelPath, t, idCol, output, topn, score, scoredAt) == Err(MissingIdColumn(idCol))
  {
  }

  /**
   * On a well-formed input whose id is not a label column, with a model
   * scoring every row, the run succeeds: one row per input row, in input
   * order, carrying the input's id, the probability the model gave the
   * aligned features, the prediction 1 exactly at or above the threshold,
   * that threshold and the model file's base name.
   */
  lemma PredictRows(loaded: Loaded, modelPath: string, t: Table, idCol: string, output: string,
                    topn: int, score: Table -> seq<real>, scoredAt: string)
    requires WellFormed(t) && HasColumn(t, idCol) && idCol !in LabelColumns
    requires LoadArtifact(loaded).Ok?
    requires |score(Align(DropAll(t, LabelColumns), LoadArtifact(loaded).value.features))| == t.height
    ensures var r := Predicted(loaded, modelPath, t, idCol, output, topn, score, scoredAt);
      var b := LoadArtifact(loaded).value;
      var proba := score(Align(DropAll(t, LabelColumns), b.features));
      && r.Ok?
      && |r.value.rows| == t.height
      && forall i :: 0 <= i < t.height ==>
        && r.value.rows[i].id == Get(t, idCol).cells[i]
        && r.value.rows[i].proba == proba[i]
        && (r.value.rows[i].pred == 1 <==> proba[i] >= b.threshold)
        && r.value.rows[i].thresholdUsed == b.threshold
        && r.value.rows[i].modelFile == Basename(modelPath)
  {
    var b := LoadArtifact(loaded).value;
    var stripped := DropAll(t, LabelColumns);
    DropAllGet(t, LabelColumns, idCol);
    WithMissingGet(stripped, b.features, idCol);
    GetOfMember(t, IndexOf(t.cols, idCol));
  }

  /** The top-N file exists exactly when N is positive, and holds min(N, rows) rows. */
  lemma PredictTop(loaded: Loaded, modelPath: string, t: Table, idCol: string, output: string,
                   topn: int, score: Table -> seq<real>, scoredAt: string)
    requires Predicted(loaded, modelPath, t, idCol, output, topn, score, scoredAt).Ok?
    ensures var s := Predicted(loaded, modelPath, t, idCol, output, topn, score, scoredAt).value;
      && (s.top.Some? <==> topn > 0)
      && (s.top.Some? ==>
            && s.top.value.0 == TopPath(output, topn)
            && |s.top.value.1| == (if topn < |s.rows| then topn else |s.rows|)
            && multiset(s.top.value.1) <= multiset(s.rows))
  {
    var s := Predicted(loaded, modelPath, t, idCol, output, topn, score, scoredAt).value;
    if topn > 0 {
      TopNHighest(s.rows, topn);
    }
  }
}
