/**
 * `prepare_model_data` (etl/modeling/40_prepare_model_data.py): the key
 * checks on the feature table and the churn table, their inner join on
 * `user_id`, the in-place removal of the leaking `last_active_date`, the
 * label/feature split, the one-hot encoding of the categorical columns with
 * the first level dropped, the scaling of the numeric columns and the
 * train/test split.
 *
 * The scaler and the splitter are library code: they are parameters. The
 * scaler maps a column (its name and cells) to its scaled cells; the
 * splitter maps a row count to the train rows and the test rows.
 */
module PrepareModelData {
  import opened Common
  import opened Sorting
  import opened Frames

  const KeyName := "user_id"
  const LabelName := "churn_30d"
  const LeakName := "last_active_date"

  /** The exceptions `prepare_model_data` can raise before anything is written. */
  datatype PrepareError =
    | MissingFeatureKey   // features["user_id"] raises KeyError
    | DuplicateFeatureIds // "Duplicados en user_features.csv"
    | MissingChurnKey     // churn["user_id"] raises KeyError
    | DuplicateChurnIds   // "Duplicados en user_retention_metrics.csv"
    | MissingLabel        // churn[["user_id", "churn_30d"]] raises KeyError
    | LabelClash          // the merge suffixes both churn_30d columns, so merged["churn_30d"] raises
    | BadLabel            // astype(int) fails on a null or non-numeric label
    | EmptyScalerInput    // StandardScaler refuses 0 rows or 0 numeric columns

  /** The four returned datasets and the `model_data.csv` table. */
  datatype Prepared = Prepared(xTrain: Table, xTest: Table, yTrain: seq<int>, yTest: seq<int>, merged: Table)

  /** `StandardScaler.fit_transform` applied to one column: name and cells to scaled cells. */
  type Scaler = (string, seq<Cell>) -> seq<Cell>

  /** `train_test_split` for `n` rows: the train row indices and the test row indices. */
  type Splitter = nat -> (seq<nat>, seq<nat>)

  /** A scaler returns one value per input row. */
  ghost predicate KeepsLength(scale: Scaler)
  {
    forall n, c :: |scale(n, c)| == |c|
  }

  /** A splitter only returns row indices below the row count. */
  ghost predicate InRange(split: Splitter)
  {
    forall n: nat :: (forall k :: 0 <= k < |split(n).0| ==> split(n).0[k] < n) &&
                     (forall k :: 0 <= k < |split(n).1| ==> split(n).1[k] < n)
  }

  /** Every column holds `height` cells (names may repeat after encoding). */
  ghost predicate Rectangular(t: Table)
  {
    forall q :: 0 <= q < |t.cols| ==> |t.cols[q].cells| == t.height
  }

  // ---------------------------------------------------------------------
  // Key checks and the inner join

  /** `series.duplicated().any()`: two rows hold equal keys (two nulls are equal). */
  predicate Duplicated(cells: seq<Cell>)
  {
    exists i, j :: 0 <= i < j < |cells| && cells[i] == cells[j]
  }

  function Keys(t: Table): seq<Cell>
    requires HasColumn(t, KeyName)
  {
    Get(t, KeyName).cells
  }

  /** The rows `i..` of the left keys whose key the right keys hold, in left order. */
  function JoinFrom(left: seq<Cell>, right: seq<Cell>, i: nat): (rows: seq<nat>)
    requires i <= |left|
    ensures forall k :: 0 <= k < |rows| ==> i <= rows[k] < |left| && left[rows[k]] in right
    ensures forall j :: i <= j < |left| && left[j] in right ==> j in rows
    ensures forall k, l :: 0 <= k < l < |rows| ==> rows[k] < rows[l]
    decreases |left| - i
  {
    if i == |left| then []
    else (if left[i] in right then [i] else []) + JoinFrom(left, right, i + 1)
  }

  /** The left rows an inner merge keeps: pandas keeps the left order. */
  function JoinRows(left: seq<Cell>, right: seq<Cell>): seq<nat>
  {
    JoinFrom(left, right, 0)
  }

  /** Index of the first cell equal to `v`. */
  function Position(cells: seq<Cell>, v: Cell): (j: nat)
    requires v in cells
    ensures j < |cells| && cells[j] == v
    ensures forall k :: 0 <= k < j ==> cells[k] != v
  {
    if cells[0] == v then 0
    else
      assert v in cells[1..] by {
        var k :| 0 <= k < |cells| && cells[k] == v;
        assert cells[1..][k - 1] == v;
      }
      1 + Position(cells[1..], v)
  }

  /** Without repeats, the position of a row's value is that row. */
  lemma PositionOfUnique(cells: seq<Cell>, i: nat)
    requires !Duplicated(cells) && i < |cells|
    ensures Position(cells, cells[i]) == i
  {
  }

  /** The cells of a column at the given rows, in that order. */
  function TakeRows(c: Column, rows: seq<nat>): (r: Column)
    requires forall k :: 0 <= k < |rows| ==> rows[k] < |c.cells|
    ensures r.name == c.name && r.dtype == c.dtype && |r.cells| == |rows|
    ensures forall k :: 0 <= k < |rows| ==> r.cells[k] == c.cells[rows[k]]
  {
    Column(c.name, c.dtype, seq(|rows|, k requires 0 <= k < |rows| => c.cells[rows[k]]))
  }

  /** `df.iloc[rows]`. */
  function TakeTableRows(t: Table, rows: seq<nat>): (r: Table)
    requires Rectangular(t)
    requires forall k :: 0 <= k < |rows| ==> rows[k] < t.height
    ensures r.height == |rows| && |r.cols| == |t.cols| && Rectangular(r)
    ensures Names(r.cols) == Names(t.cols)
  {
    Table(seq(|t.cols|, q requires 0 <= q < |t.cols| => TakeRows(t.cols[q], rows)), |rows|)
  }

  /** `churn[["user_id", "churn_30d"]]` merged into the features on `user_id`, `how="inner"`. */
  function InnerJoin(features: Table, churn: Table): (m: Table)
    requires WellFormed(features) && WellFormed(churn)
    requires HasColumn(features, KeyName) && HasColumn(churn, KeyName) && HasColumn(churn, LabelName)
    ensures Rectangular(m)
    ensures Names(m.cols) == Names(features.cols) + [LabelName]
  {
    var fk := Keys(features);
    var ck := Keys(churn);
    var rows := JoinRows(fk, ck);
    var labelCol := Get(churn, LabelName);
    assert |fk| == features.height && |ck| == churn.height && |labelCol.cells| == churn.height;
    var left := TakeTableRows(features, rows);
    var m := Table(left.cols + [Column(LabelName, labelCol.dtype,
      seq(|rows|, k requires 0 <= k < |rows| => labelCol.cells[Position(ck, fk[rows[k]])]))], |rows|);
    NamesAppend(left.cols, [Column(LabelName, labelCol.dtype, [])]);
    assert Names(m.cols) == Names(left.cols) + [LabelName];
    m
  }

  // ---------------------------------------------------------------------
  // The label

  /** Python's `int(x)` on a float: truncation toward zero. */
  function Trunc(x: real): int
  {
    if x >= 0.0 then x.Floor else -((-x).Floor)
  }

  /** One cell of `astype(int)`. */
  function LabelOf(c: Cell): Result<int, PrepareError>
  {
    match c
    case Num(x) => Ok(Trunc(x))
    case Flag(b) => Ok(if b then 1 else 0)
    case _ => Err(BadLabel)
  }

  /** `series.astype(int)`: every cell converts, or the whole call raises. */
  function Labels(cells: seq<Cell>): (r: Result<seq<int>, PrepareError>)
    ensures r.Ok? <==> forall k :: 0 <= k < |cells| ==> LabelOf(cells[k]).Ok?
    ensures r.Ok? ==> |r.value| == |cells|
    ensures r.Ok? ==> forall k :: 0 <= k < |cells| ==> r.value[k] == LabelOf(cells[k]).value
    ensures r.Err? ==> r.error == BadLabel
  {
    if cells == [] then Ok([])
    else
      var head := LabelOf(cells[0]);
      var rest := Labels(cells[1..]);
      if head.Err? then Err(BadLabel)
      else if rest.Err? then
        assert forall k :: 1 <= k < |cells| ==> cells[k] == cells[1..][k - 1];
        Err(BadLabel)
      else
        assert forall k :: 1 <= k < |cells| ==> cells[k] == cells[1..][k - 1];
        Ok([head.value] + rest.value)
  }

  // ---------------------------------------------------------------------
  // Column kinds

  /** The columns whose dtype passes `p`, in table order (`select_dtypes`). */
  function ColumnsWhere(cols: seq<Column>, p: Dtype -> bool): (r: seq<Column>)
    ensures forall c :: c in r <==> c in cols && p(c.dtype)
    ensures |r| <= |cols|
  {
    if cols == [] then []
    else (if p(cols[0].dtype) then [cols[0]] else []) + ColumnsWhere(cols[1..], p)
  }

  /** `select_dtypes(include=["object", "category"]).columns`. */
  function CategoricalNames(t: Table): seq<string>
  {
    Names(ColumnsWhere(t.cols, IsCategorical))
  }

  /** `select_dtypes(include=["int64", "float64"]).columns`. */
  function NumericNames(t: Table): seq<string>
  {
    Names(ColumnsWhere(t.cols, IsNumeric))
  }

  // ---------------------------------------------------------------------
  // One-hot encoding

  /** The text values of a column, in row order, with repeats. */
  function TextValues(cells: seq<Cell>): (vs: seq<string>)
    ensures forall s :: s in vs <==> Str(s) in cells
  {
    if cells == [] then []
    else (if cells[0].Str? then [cells[0].s] else []) + TextValues(cells[1..])
  }

  /** The levels `get_dummies` encodes: the distinct non-null values, sorted. */
  function Levels(c: Column): (lv: seq<string>)
    ensures forall s :: s in lv <==> Str(s) in c.cells
    ensures forall i, j :: 0 <= i < j < |lv| ==> lv[i] != lv[j]
  {
    SortedUnique(TextValues(c.cells))
  }

  /** The indicator column `<name>_<level>`: true exactly on the rows holding that level. */
  function Indicator(c: Column, level: string): Column
  {
    Column(c.name + "_" + level, Bool, seq(|c.cells|, i requires 0 <= i < |c.cells| => Flag(c.cells[i] == Str(level))))
  }

  /** The indicators of one column with `drop_first=True`: every level but the first. */
  function DummyColumns(c: Column): (ds: seq<Column>)
    ensures forall j :: 0 <= j < |ds| ==> ds[j].dtype == Bool && |ds[j].cells| == |c.cells|
  {
    var lv := Levels(c);
    if lv == [] then [] else Indicators(c, lv[1..])
  }

  /** One indicator per listed level, in order. */
  function Indicators(c: Column, levels: seq<string>): (ds: seq<Column>)
    ensures |ds| == |levels|
    ensures forall j :: 0 <= j < |ds| ==> ds[j] == Indicator(c, levels[j]) && ds[j].dtype == Bool && |ds[j].cells| == |c.cells|
  {
    seq(|levels|, j requires 0 <= j < |levels| => Indicator(c, levels[j]))
  }


  /** The indicators of the encoded columns, column after column. */
  function EncodedColumns(t: Table, names: seq<string>): seq<Column>
    requires forall n :: n in names ==> HasColumn(t, n)
  {
    if names == [] then [] else DummyColumns(Get(t, names[0])) + EncodedColumns(t, names[1..])
  }

  /** The columns not being encoded, in table order. */
  function KeptColumns(cols: seq<Column>, names: seq<string>): (r: seq<Column>)
    ensures forall c :: c in r <==> c in cols && c.name !in names
  {
    if cols == [] then []
    else (if cols[0].name in names then [] else [cols[0]]) + KeptColumns(cols[1..], names)
  }

  /** `pd.get_dummies(X, columns=names, drop_first=True)`: kept columns first, then the indicators. */
  function Dummies(t: Table, names: seq<string>): Table
    requires forall n :: n in names ==> HasColumn(t, n)
  {
    Table(KeptColumns(t.cols, names) + EncodedColumns(t, names), t.height)
  }

  // ---------------------------------------------------------------------
  // Scaling

  function ScaledColumn(t: Table, name: string, scale: Scaler): Column
    requires HasColumn(t, name)
  {
    Column(name, Float64, scale(name, Get(t, name).cells))
  }

  /** `X[names] = scaler.fit_transform(X[names])`, one column after the other. */
  function Scale(t: Table, names: seq<string>, scale: Scaler): Table
    requires forall n :: n in names ==> HasColumn(t, n)
    decreases |names|
  {
    if names == [] then t
    else
      var t' := Assign(t, ScaledColumn(t, names[0], scale));
      AssignKeepsColumns(t, ScaledColumn(t, names[0], scale));
      Scale(t', names[1..], scale)
  }

  lemma AssignKeepsColumns(t: Table, c: Column)
    ensures forall n :: HasColumn(t, n) ==> HasColumn(Assign(t, c), n)
  {
    forall n | HasColumn(t, n) ensures HasColumn(Assign(t, c), n) {
      if n != c.name { AssignKeepsOthers(t, c, n); }
    }
  }

  // ---------------------------------------------------------------------
  // The whole preparation

  /** `merged` after the leakage drop. */
  function Merged(features: Table, churn: Table): Table
    requires WellFormed(features) && WellFormed(churn)
    requires HasColumn(features, KeyName) && HasColumn(churn, KeyName) && HasColumn(churn, LabelName)
  {
    DropColumn(InnerJoin(features, churn), LeakName)
  }

  /** `merged.drop(columns=["user_id", "churn_30d"])`. */
  function Unlabelled(merged: Table): Table
  {
    DropColumn(DropColumn(merged, KeyName), LabelName)
  }

  /** X after the one-hot encoding and the scaling: the design matrix the split cuts. */
  function Design(x0: Table, scale: Scaler): (x: Table)
    requires WellFormed(x0) && KeepsLength(scale)
    ensures Rectangular(x) && x.height == x0.height
  {
    var catCols := CategoricalNames(x0);
    DummiesKeepNumeric(x0);
    DummiesRectangular(x0, catCols);
    ScaleRectangular(Dummies(x0, catCols), NumericNames(x0), scale);
    Scale(Dummies(x0, catCols), NumericNames(x0), scale)
  }

  /** Steps 5 to 9 on the merged table and its converted labels. */
  function Finish(merged: Table, y: seq<int>, scale: Scaler, split: Splitter): Result<Prepared, PrepareError>
    requires WellFormed(merged) && |y| == merged.height
    requires KeepsLength(scale) && InRange(split)
  {
    var x0 := Unlabelled(merged);
    UnlabelledWellFormed(merged);
    if x0.height == 0 || NumericNames(x0) == [] then Err(EmptyScalerInput)
    else
      var x := Design(x0, scale);
      var (train, test) := split(x.height);
      Ok(Prepared(TakeTableRows(x, train), TakeTableRows(x, test), Pick(y, train), Pick(y, test), merged))
  }

  /** `prepare_model_data` on the two tables as read. */
  function Prepare(features: Table, churn: Table, scale: Scaler, split: Splitter): Result<Prepared, PrepareError>
    requires WellFormed(features) && WellFormed(churn)
    requires KeepsLength(scale) && InRange(split)
  {
    if !HasColumn(features, KeyName) then Err(MissingFeatureKey)
    else if Duplicated(Keys(features)) then Err(DuplicateFeatureIds)
    else if !HasColumn(churn, KeyName) then Err(MissingChurnKey)
    else if Duplicated(Keys(churn)) then Err(DuplicateChurnIds)
    else if !HasColumn(churn, LabelName) then Err(MissingLabel)
    else if HasColumn(features, LabelName) then Err(LabelClash)
    else
      var merged := Merged(features, churn);
      MergedFacts(features, churn);
      var y := Labels(Get(merged, LabelName).cells);
      if y.Err? then Err(y.error)
      else Finish(merged, y.value, scale, split)
  }

  function Pick(y: seq<int>, rows: seq<nat>): (r: seq<int>)
    requires forall k :: 0 <= k < |rows| ==> rows[k] < |y|
    ensures |r| == |rows| && forall k :: 0 <= k < |rows| ==> r[k] == y[rows[k]]
  {
    seq(|rows|, k requires 0 <= k < |rows| => y[rows[k]])
  }

  // ---------------------------------------------------------------------
  // Shape facts the pipeline relies on

  /** The merged table is well formed and still has its label after the leakage drop. */
  lemma MergedFacts(features: Table, churn: Table)
    requires WellFormed(features) && WellFormed(churn)
    requires HasColumn(features, KeyName) && HasColumn(churn, KeyName) && HasColumn(churn, LabelName)
    requires !HasColumn(features, LabelName)
    ensures WellFormed(Merged(features, churn))
    ensures HasColumn(Merged(features, churn), LabelName)
    ensures Merged(features, churn).height == |JoinRows(Keys(features), Keys(churn))|
  {
    var j := InnerJoin(features, churn);
    assert Names(j.cols)[|features.cols|] == LabelName;
    assert WellFormed(j) by {
      forall a, b | 0 <= a < b < |j.cols| ensures j.cols[a].name != j.cols[b].name {
        assert Names(j.cols)[a] == j.cols[a].name && Names(j.cols)[b] == j.cols[b].name;
        if b == |features.cols| {
          assert Names(features.cols)[a] == j.cols[a].name;
        } else {
          assert Names(features.cols)[a] == j.cols[a].name;
          assert Names(features.cols)[b] == j.cols[b].name;
        }
      }
    }
    DropWellFormed(j, LeakName);
    var labelCol := j.cols[|features.cols|];
    assert labelCol in DropNamed(j.cols, LeakName);
    var k :| 0 <= k < |DropNamed(j.cols, LeakName)| && DropNamed(j.cols, LeakName)[k] == labelCol;
    assert Names(DropNamed(j.cols, LeakName))[k] == LabelName;
  }

  /** The names `select_dtypes` returns are columns of the table. */
  lemma NamesHeld(t: Table, p: Dtype -> bool)
    ensures forall n :: n in Names(ColumnsWhere(t.cols, p)) ==> HasColumn(t, n)
  {
    var w := ColumnsWhere(t.cols, p);
    forall n | n in Names(w) ensures HasColumn(t, n) {
      var k :| 0 <= k < |w| && Names(w)[k] == n;
      assert w[k] in t.cols;
      var q :| 0 <= q < |t.cols| && t.cols[q] == w[k];
      assert Names(t.cols)[q] == n;
    }
  }

  /** In a well-formed table no name is both numeric and categorical. */
  lemma KindsDisjoint(t: Table)
    requires WellFormed(t)
    ensures forall n :: n in NumericNames(t) ==> n !in CategoricalNames(t)
  {
    var num := ColumnsWhere(t.cols, IsNumeric);
    var cat := ColumnsWhere(t.cols, IsCategorical);
    forall n | n in NumericNames(t) ensures n !in CategoricalNames(t) {
      var a :| 0 <= a < |num| && Names(num)[a] == n;
      if n in CategoricalNames(t) {
        var b :| 0 <= b < |cat| && Names(cat)[b] == n;
        assert num[a] in t.cols && cat[b] in t.cols;
        SameNameSameColumn(t, num[a], cat[b]);
      }
    }
  }

  /** A well-formed table holds one column per name. */
  lemma SameNameSameColumn(t: Table, c1: Column, c2: Column)
    requires WellFormed(t) && c1 in t.cols && c2 in t.cols && c1.name == c2.name
    ensures c1 == c2
  {
    var i :| 0 <= i < |t.cols| && t.cols[i] == c1;
    var j :| 0 <= j < |t.cols| && t.cols[j] == c2;
  }

  lemma UnlabelledWellFormed(merged: Table)
    requires WellFormed(merged)
    ensures WellFormed(Unlabelled(merged)) && Unlabelled(merged).height == merged.height
  {
    DropWellFormed(merged, KeyName);
    DropWellFormed(DropColumn(merged, KeyName), LabelName);
  }

  /** Each indicator has one cell per row of its source column. */
  lemma DummyLengths(c: Column)
    ensures forall d :: d in DummyColumns(c) ==> |d.cells| == |c.cells|
  {
    var ds := DummyColumns(c);
    forall d | d in ds ensures |d.cells| == |c.cells| {
      var j :| 0 <= j < |ds| && ds[j] == d;
      var lv := Levels(c);
      assert d == Indicator(c, lv[j + 1]);
    }
  }

  /** Encoding never removes a numeric column. */
  lemma DummiesKeepNumeric(x0: Table)
    requires WellFormed(x0)
    ensures forall n :: n in CategoricalNames(x0) ==> HasColumn(x0, n)
    ensures forall n :: n in NumericNames(x0) ==> HasColumn(Dummies(x0, CategoricalNames(x0)), n)
  {
    NamesHeld(x0, IsCategorical);
    NamesHeld(x0, IsNumeric);
    KindsDisjoint(x0);
    var cats := CategoricalNames(x0);
    var d := Dummies(x0, cats);
    var kept := KeptColumns(x0.cols, cats);
    assert d.cols == kept + EncodedColumns(x0, cats);
    forall n | n in NumericNames(x0) ensures HasColumn(d, n) {
      var num := ColumnsWhere(x0.cols, IsNumeric);
      var a :| 0 <= a < |num| && Names(num)[a] == n;
      assert num[a] in x0.cols && num[a].name !in cats;
      NameInFront(kept, EncodedColumns(x0, cats), num[a]);
    }
  }

  /** A column of the front part of a list keeps its name in the joined list. */
  lemma NameInFront(a: seq<Column>, b: seq<Column>, c: Column)
    requires c in a
    ensures c.name in Names(a + b)
  {
    var k :| 0 <= k < |a| && a[k] == c;
    assert Names(a + b)[k] == c.name;
  }

  lemma {:induction false} EncodedRectangular(t: Table, names: seq<string>)
    requires Rectangular(t)
    requires forall n :: n in names ==> HasColumn(t, n)
    ensures forall c :: c in EncodedColumns(t, names) ==> |c.cells| == t.height
  {
    if names != [] {
      EncodedRectangular(t, names[1..]);
      var c := Get(t, names[0]);
      assert |c.cells| == t.height;
      DummyLengths(c);
    }
  }

  lemma DummiesRectangular(t: Table, names: seq<string>)
    requires Rectangular(t)
    requires forall n :: n in names ==> HasColumn(t, n)
    ensures Rectangular(Dummies(t, names)) && Dummies(t, names).height == t.height
  {
    EncodedRectangular(t, names);
    var d := Dummies(t, names);
    var kept := KeptColumns(t.cols, names);
    forall q | 0 <= q < |d.cols| ensures |d.cols[q].cells| == t.height {
      if q < |kept| {
        assert kept[q] in t.cols;
      } else {
        assert d.cols[q] in EncodedColumns(t, names);
      }
    }
  }

  lemma {:induction false} ScaleRectangular(t: Table, names: seq<string>, scale: Scaler)
    requires Rectangular(t) && KeepsLength(scale)
    requires forall n :: n in names ==> HasColumn(t, n)
    ensures Rectangular(Scale(t, names, scale)) && Scale(t, names, scale).height == t.height
    decreases |names|
  {
    if names != [] {
      var c := ScaledColumn(t, names[0], scale);
      AssignKeepsColumns(t, c);
      var t' := Assign(t, c);
      assert |c.cells| == t.height;
      assert Rectangular(t') by {
        var k := IndexOf(t.cols, c.name);
        assert t'.cols == t.cols[k := c];
      }
      ScaleRectangular(t', names[1..], scale);
    }
  }

  // ---------------------------------------------------------------------
  // The script, step by step

  /** `X[names] = scaler.fit_transform(X[names])` on the DataFrame `df`. */
  method ScaleInPlace(df: DataFrame, names: seq<string>, scale: Scaler)
    requires forall n :: n in names ==> HasColumn(df.Value(), n)
    modifies df
    ensures df.Value() == Scale(old(df.Value()), names, scale)
  {
    ghost var target := Scale(df.Value(), names, scale);
    var i := 0;
    while i < |names|
      invariant 0 <= i <= |names|
      invariant forall n :: n in names[i..] ==> HasColumn(df.Value(), n)
      invariant Scale(df.Value(), names[i..], scale) == target
    {
      var v := df.Value();
      var c := ScaledColumn(v, names[i], scale);
      AssignKeepsColumns(v, c);
      assert names[i..][1..] == names[i + 1..];
      df.AssignInPlace(c);
      i := i + 1;
    }
  }

  /**
   * `prepare_model_data`: the key checks in the script's order, the merge,
   * the in-place leakage drop, the label conversion, the encoding, the
   * in-place scaling and the split.
   */
  method PrepareModelData(features: Table, churn: Table, scale: Scaler, split: Splitter)
    returns (r: Result<Prepared, PrepareError>)
    requires WellFormed(features) && WellFormed(churn)
    requires KeepsLength(scale) && InRange(split)
    ensures r == Prepare(features, churn, scale, split)
  {
    if !HasColumn(features, KeyName) { return Err(MissingFeatureKey); }
    if Duplicated(Keys(features)) { return Err(DuplicateFeatureIds); }
    if !HasColumn(churn, KeyName) { return Err(MissingChurnKey); }
    if Duplicated(Keys(churn)) { return Err(DuplicateChurnIds); }
    if !HasColumn(churn, LabelName) { return Err(MissingLabel); }
    if HasColumn(features, LabelName) { return Err(LabelClash); }

    var merged := new DataFrame(InnerJoin(features, churn));
    if HasColumn(merged.Value(), LeakName) {
      merged.DropInPlace(LeakName);
    } else {
      DropAbsent(merged.cols, LeakName);
    }
    var m := merged.Value();
    MergedFacts(features, churn);

    var y := Labels(Get(m, LabelName).cells);
    if y.Err? { return Err(y.error); }

    r := EncodeScaleSplit(m, y.value, scale, split);
  }

  /** Steps 5 to 9 in place: drop the key and label, encode, scale, split. */
  method EncodeScaleSplit(m: Table, y: seq<int>, scale: Scaler, split: Splitter)
    returns (r: Result<Prepared, PrepareError>)
    requires WellFormed(m) && |y| == m.height
    requires KeepsLength(scale) && InRange(split)
    ensures r == Finish(m, y, scale, split)
  {
    var x0 := Unlabelled(m);
    UnlabelledWellFormed(m);
    var catCols := CategoricalNames(x0);
    var numCols := NumericNames(x0);
    if x0.height == 0 || numCols == [] { return Err(EmptyScalerInput); }

    DummiesKeepNumeric(x0);
    var x := new DataFrame(Dummies(x0, catCols));
    ScaleInPlace(x, numCols, scale);
    var design := x.Value();
    assert design == Design(x0, scale);

    var parts := split(design.height);
    r := Ok(Prepared(TakeTableRows(design, parts.0), TakeTableRows(design, parts.1),
                     Pick(y, parts.0), Pick(y, parts.1), m));
  }

  // ---------------------------------------------------------------------
  // Properties

  /**
   * The features key is checked before the churn key: a duplicated feature
   * id raises the features error whatever the churn table holds, and a run
   * that succeeds passed every check.
   */
  lemma KeyChecksOrder(features: Table, churn: Table, scale: Scaler, split: Splitter)
    requires WellFormed(features) && WellFormed(churn)
    requires KeepsLength(scale) && InRange(split)
    ensures HasColumn(features, KeyName) && Duplicated(Keys(features)) ==>
      Prepare(features, churn, scale, split) == Err(DuplicateFeatureIds)
    ensures (HasColumn(features, KeyName) && !Duplicated(Keys(features)) &&
             HasColumn(churn, KeyName) && Duplicated(Keys(churn))) ==>
      Prepare(features, churn, scale, split) == Err(DuplicateChurnIds)
    ensures Prepare(features, churn, scale, split).Ok? ==>
      && HasColumn(features, KeyName) && !Duplicated(Keys(features))
      && HasColumn(churn, KeyName) && !Duplicated(Keys(churn))
      && HasColumn(churn, LabelName)
  {
  }

  /** The keys of the left rows the join keeps: exactly the common keys, in left order. */
  lemma {:induction false} JoinRowsExact(left: seq<Cell>, right: seq<Cell>)
    ensures forall v :: (exists k :: 0 <= k < |JoinRows(left, right)| && left[JoinRows(left, right)[k]] == v)
                          <==> v in left && v in right
    ensures !Duplicated(left) ==> forall k1, k2 :: 0 <= k1 < k2 < |JoinRows(left, right)| ==>
      left[JoinRows(left, right)[k1]] != left[JoinRows(left, right)[k2]]
  {
    var rows := JoinRows(left, right);
    forall v | v in left && v in right
      ensures exists k :: 0 <= k < |rows| && left[rows[k]] == v
    {
      var i :| 0 <= i < |left| && left[i] == v;
      assert i in rows;
      var k :| 0 <= k < |rows| && rows[k] == i;
    }
    if !Duplicated(left) {
      forall k1, k2 | 0 <= k1 < k2 < |rows| ensures left[rows[k1]] != left[rows[k2]] {
        assert rows[k1] < rows[k2];
      }
    }
  }

  /** The merged table's key column is the features key column at the kept rows. */
  lemma JoinKeyColumn(features: Table, churn: Table)
    requires WellFormed(features) && WellFormed(churn)
    requires HasColumn(features, KeyName) && HasColumn(churn, KeyName) && HasColumn(churn, LabelName)
    ensures HasColumn(InnerJoin(features, churn), KeyName)
    ensures Get(InnerJoin(features, churn), KeyName)
         == TakeRows(Get(features, KeyName), JoinRows(Keys(features), Keys(churn)))
  {
    var m := InnerJoin(features, churn);
    var kq := IndexOf(features.cols, KeyName);
    assert Names(m.cols)[kq] == KeyName;
    assert forall q :: 0 <= q < kq ==> Names(m.cols)[q] == Names(features.cols)[q];
    assert IndexOf(m.cols, KeyName) == kq;
  }

  /** `merged["user_id"]`. */
  function MergedKeys(features: Table, churn: Table): seq<Cell>
    requires WellFormed(features) && WellFormed(churn)
    requires HasColumn(features, KeyName) && HasColumn(churn, KeyName) && HasColumn(churn, LabelName)
  {
    JoinKeyColumn(features, churn);
    Get(InnerJoin(features, churn), KeyName).cells
  }

  /** A merged row's key is the key of the features row it was taken from. */
  lemma JoinedRowPosition(features: Table, churn: Table)
    requires WellFormed(features) && WellFormed(churn)
    requires HasColumn(features, KeyName) && HasColumn(churn, KeyName) && HasColumn(churn, LabelName)
    requires !Duplicated(Keys(features))
    ensures |MergedKeys(features, churn)| == |JoinRows(Keys(features), Keys(churn))|
    ensures forall k :: 0 <= k < |MergedKeys(features, churn)| ==>
      && MergedKeys(features, churn)[k] in Keys(features)
      && MergedKeys(features, churn)[k] in Keys(churn)
      && Position(Keys(features), MergedKeys(features, churn)[k]) == JoinRows(Keys(features), Keys(churn))[k]
  {
    var fk := Keys(features);
    var rows := JoinRows(fk, Keys(churn));
    var mk := MergedKeys(features, churn);
    JoinKeyColumn(features, churn);
    assert forall k :: 0 <= k < |rows| ==> mk[k] == fk[rows[k]];
    forall k | 0 <= k < |rows| ensures Position(fk, mk[k]) == rows[k] {
      PositionOfUnique(fk, rows[k]);
    }
  }

  /** The merged ids are exactly the ids both tables hold. */
  lemma MergedKeysMembers(features: Table, churn: Table)
    requires WellFormed(features) && WellFormed(churn)
    requires HasColumn(features, KeyName) && HasColumn(churn, KeyName) && HasColumn(churn, LabelName)
    requires !Duplicated(Keys(features))
    ensures forall v :: v in MergedKeys(features, churn) <==> v in Keys(features) && v in Keys(churn)
  {
    var fk := Keys(features);
    var rows := JoinRows(fk, Keys(churn));
    var mk := MergedKeys(features, churn);
    JoinKeyColumn(features, churn);
    JoinRowsExact(fk, Keys(churn));
    forall v ensures v in mk <==> v in fk && v in Keys(churn) {
      if v in mk {
        var k :| 0 <= k < |mk| && mk[k] == v;
        assert fk[rows[k]] == v;
      }
      if v in fk && v in Keys(churn) {
        var k :| 0 <= k < |rows| && fk[rows[k]] == v;
        assert mk[k] == v;
      }
    }
  }

  /**
   * The inner merge keeps one row per id present in both tables, in the
   * order of the features table, and nothing else.
   */
  lemma InnerJoinKeys(features: Table, churn: Table)
    requires WellFormed(features) && WellFormed(churn)
    requires HasColumn(features, KeyName) && HasColumn(churn, KeyName) && HasColumn(churn, LabelName)
    requires !Duplicated(Keys(features))
    ensures |MergedKeys(features, churn)| == InnerJoin(features, churn).height
    ensures forall v :: v in MergedKeys(features, churn) <==> v in Keys(features) && v in Keys(churn)
    ensures !Duplicated(MergedKeys(features, churn))
    ensures forall k1, k2 :: 0 <= k1 < k2 < |MergedKeys(features, churn)| ==>
      Position(Keys(features), MergedKeys(features, churn)[k1]) < Position(Keys(features), MergedKeys(features, churn)[k2])
  {
    var fk := Keys(features);
    var rows := JoinRows(fk, Keys(churn));
    var mk := MergedKeys(features, churn);
    JoinKeyColumn(features, churn);
    JoinedRowPosition(features, churn);
    MergedKeysMembers(features, churn);
    forall k1, k2 | 0 <= k1 < k2 < |mk| ensures mk[k1] != mk[k2] {
      assert Position(fk, mk[k1]) == rows[k1] < rows[k2] == Position(fk, mk[k2]);
    }
  }

  /** The feature columns of a merged row come from the features row with its id. */
  lemma InnerJoinFeatureCells(features: Table, churn: Table)
    requires WellFormed(features) && WellFormed(churn)
    requires HasColumn(features, KeyName) && HasColumn(churn, KeyName) && HasColumn(churn, LabelName)
    requires !Duplicated(Keys(features))
    ensures |MergedKeys(features, churn)| == InnerJoin(features, churn).height
    ensures forall k, q :: 0 <= k < InnerJoin(features, churn).height && 0 <= q < |features.cols| ==>
      && MergedKeys(features, churn)[k] in Keys(features)
      && InnerJoin(features, churn).cols[q].cells[k]
         == features.cols[q].cells[Position(Keys(features), MergedKeys(features, churn)[k])]
  {
    JoinedRowPosition(features, churn);
  }

  /** The `churn_30d` cell of a merged row comes from the churn row with its id. */
  lemma InnerJoinLabelCells(features: Table, churn: Table)
    requires WellFormed(features) && WellFormed(churn)
    requires HasColumn(features, KeyName) && HasColumn(churn, KeyName) && HasColumn(churn, LabelName)
    requires !Duplicated(Keys(features))
    ensures |MergedKeys(features, churn)| == InnerJoin(features, churn).height
    ensures forall k :: 0 <= k < InnerJoin(features, churn).height ==>
      && MergedKeys(features, churn)[k] in Keys(churn)
      && InnerJoin(features, churn).cols[|features.cols|].cells[k]
         == Get(churn, LabelName).cells[Position(Keys(churn), MergedKeys(features, churn)[k])]
  {
    JoinedRowPosition(features, churn);
    assert |Keys(features)| == features.height;
  }

  /**
   * Each merged row carries the feature row and the churn label of its id:
   * the feature columns come from the features row with that id and
   * `churn_30d` from the churn row with that id.
   */
  lemma InnerJoinRows(features: Table, churn: Table)
    requires WellFormed(features) && WellFormed(churn)
    requires HasColumn(features, KeyName) && HasColumn(churn, KeyName) && HasColumn(churn, LabelName)
    requires !Duplicated(Keys(features))
    ensures Names(InnerJoin(features, churn).cols) == Names(features.cols) + [LabelName]
    ensures |MergedKeys(features, churn)| == InnerJoin(features, churn).height
    ensures forall k, q :: 0 <= k < InnerJoin(features, churn).height && 0 <= q < |features.cols| ==>
      && MergedKeys(features, churn)[k] in Keys(features)
      && InnerJoin(features, churn).cols[q].cells[k]
         == features.cols[q].cells[Position(Keys(features), MergedKeys(features, churn)[k])]
    ensures forall k :: 0 <= k < InnerJoin(features, churn).height ==>
      && MergedKeys(features, churn)[k] in Keys(churn)
      && InnerJoin(features, churn).cols[|features.cols|].cells[k]
         == Get(churn, LabelName).cells[Position(Keys(churn), MergedKeys(features, churn)[k])]
  {
    InnerJoinFeatureCells(features, churn);
    InnerJoinLabelCells(features, churn);
  }

  /**
   * After step 4 `last_active_date` is gone from the merged table whether or
   * not it was there, and X holds neither it nor `user_id` nor `churn_30d`.
   */
  lemma LeakAndKeysDropped(merged: Table)
    ensures !HasColumn(DropColumn(merged, LeakName), LeakName)
    ensures !HasColumn(Unlabelled(DropColumn(merged, LeakName)), LeakName)
    ensures !HasColumn(Unlabelled(merged), KeyName)
    ensures !HasColumn(Unlabelled(merged), LabelName)
  {
  }

  /**
   * y is `churn_30d` row-aligned with X: the train and test labels are the
   * converted labels of the very merged rows whose features form the
   * train and test rows of X.
   */
  lemma SplitAligned(features: Table, churn: Table, scale: Scaler, split: Splitter)
    requires WellFormed(features) && WellFormed(churn)
    requires KeepsLength(scale) && InRange(split)
    requires Prepare(features, churn, scale, split).Ok?
    ensures var r := Prepare(features, churn, scale, split).value;
      && WellFormed(r.merged) && HasColumn(r.merged, LabelName)
      && r.xTrain.height == |r.yTrain| && r.xTest.height == |r.yTest|
      && LabelsFrom(r.merged, split(r.merged.height).0, r.yTrain)
      && LabelsFrom(r.merged, split(r.merged.height).1, r.yTest)
  {
    MergedFacts(features, churn);
    var m := Merged(features, churn);
    var cells := Get(m, LabelName).cells;
    assert |cells| == m.height;
    var y := Labels(cells);
    assert Prepare(features, churn, scale, split) == Finish(m, y.value, scale, split);
    FinishAligned(m, y.value, scale, split);
    var r := Finish(m, y.value, scale, split).value;
    assert LabelsFrom(m, split(m.height).0, r.yTrain);
    assert LabelsFrom(m, split(m.height).1, r.yTest);
  }

  /** `ys` are the converted labels of the merged rows `rows`, in that order. */
  ghost predicate LabelsFrom(merged: Table, rows: seq<nat>, ys: seq<int>)
    requires WellFormed(merged) && HasColumn(merged, LabelName)
  {
    && |ys| == |rows|
    && forall k :: 0 <= k < |rows| ==>
         rows[k] < merged.height && LabelOf(Get(merged, LabelName).cells[rows[k]]) == Ok(ys[k])
  }

  lemma FinishAligned(merged: Table, y: seq<int>, scale: Scaler, split: Splitter)
    requires WellFormed(merged) && |y| == merged.height
    requires KeepsLength(scale) && InRange(split)
    requires Finish(merged, y, scale, split).Ok?
    ensures var r := Finish(merged, y, scale, split).value;
      && r.merged == merged
      && r.xTrain.height == |r.yTrain| == |split(merged.height).0|
      && r.xTest.height == |r.yTest| == |split(merged.height).1|
      && (forall k :: 0 <= k < |r.yTrain| ==> split(merged.height).0[k] < |y| && r.yTrain[k] == y[split(merged.height).0[k]])
      && (forall k :: 0 <= k < |r.yTest| ==> split(merged.height).1[k] < |y| && r.yTest[k] == y[split(merged.height).1[k]])
  {
    UnlabelledWellFormed(merged);
  }

  /**
   * X's row `k` of either part is row `rows[k]` of the encoded, scaled
   * design matrix, column by column.
   */
  lemma SplitRows(x: Table, rows: seq<nat>)
    requires Rectangular(x) && forall k :: 0 <= k < |rows| ==> rows[k] < x.height
    ensures forall q, k :: 0 <= q < |x.cols| && 0 <= k < |rows| ==>
      TakeTableRows(x, rows).cols[q].cells[k] == x.cols[q].cells[rows[k]]
  {
  }

  /**
   * `select_dtypes`: a name is categorical exactly when X has an object or
   * category column of that name, numeric exactly when it has an int64 or
   * float64 column of that name; no name is both, and a column of any other
   * dtype (booleans, parsed dates) is neither.
   */
  lemma ColumnKinds(x: Table)
    requires WellFormed(x)
    ensures forall n :: n in CategoricalNames(x) <==> exists c :: c in x.cols && c.name == n && IsCategorical(c.dtype)
    ensures forall n :: n in NumericNames(x) <==> exists c :: c in x.cols && c.name == n && IsNumeric(c.dtype)
    ensures forall n :: n in NumericNames(x) ==> n !in CategoricalNames(x)
    ensures forall c :: c in x.cols && !IsCategorical(c.dtype) && !IsNumeric(c.dtype) ==>
      c.name !in CategoricalNames(x) && c.name !in NumericNames(x)
  {
    KindsDisjoint(x);
    KindNames(x, IsCategorical);
    KindNames(x, IsNumeric);
    forall c | c in x.cols && !IsCategorical(c.dtype) && !IsNumeric(c.dtype)
      ensures c.name !in CategoricalNames(x) && c.name !in NumericNames(x)
    {
      if c.name in CategoricalNames(x) {
        var d :| d in x.cols && d.name == c.name && IsCategorical(d.dtype);
        SameNameSameColumn(x, c, d);
      }
      if c.name in NumericNames(x) {
        var d :| d in x.cols && d.name == c.name && IsNumeric(d.dtype);
        SameNameSameColumn(x, c, d);
      }
    }
  }

  /** A name passes `select_dtypes` exactly when a column of that name has a selected dtype. */
  lemma KindNames(x: Table, p: Dtype -> bool)
    ensures forall n :: n in Names(ColumnsWhere(x.cols, p)) <==> exists c :: c in x.cols && c.name == n && p(c.dtype)
  {
    var w := ColumnsWhere(x.cols, p);
    forall n ensures n in Names(w) <==> exists c :: c in x.cols && c.name == n && p(c.dtype) {
      if n in Names(w) {
        var k :| 0 <= k < |w| && Names(w)[k] == n;
        assert w[k] in x.cols;
      }
      if exists c :: c in x.cols && c.name == n && p(c.dtype) {
        var c :| c in x.cols && c.name == n && p(c.dtype);
        assert c in w;
        var k :| 0 <= k < |w| && w[k] == c;
        assert Names(w)[k] == n;
      }
    }
  }

  /**
   * One categorical column's indicators with `drop_first=True`: one column
   * `<name>_<level>` per sorted level after the first; on every row at most
   * one of them is true, and one is true exactly when the row holds a
   * level other than the first (a null or the first level sets none).
   */
  lemma OneHot(c: Column, i: nat)
    requires i < |c.cells|
    ensures Sorted(Levels(c), StrLe)
    ensures forall s :: s in Levels(c) <==> Str(s) in c.cells
    ensures |DummyColumns(c)| == (if Levels(c) == [] then 0 else |Levels(c)| - 1)
    ensures forall j :: 0 <= j < |DummyColumns(c)| ==>
      && DummyColumns(c)[j].name == c.name + "_" + Levels(c)[j + 1]
      && DummyColumns(c)[j].dtype == Bool
      && |DummyColumns(c)[j].cells| == |c.cells|
    ensures forall j1, j2 :: 0 <= j1 < j2 < |DummyColumns(c)| ==>
      !(DummyColumns(c)[j1].cells[i] == Flag(true) && DummyColumns(c)[j2].cells[i] == Flag(true))
    ensures (exists j :: 0 <= j < |DummyColumns(c)| && DummyColumns(c)[j].cells[i] == Flag(true))
      <==> c.cells[i].Str? && c.cells[i].s !in Levels(c)[..1]
  {
    SortedUniqueSorted(TextValues(c.cells));
    DummyShape(c);
    DummyAtMostOne(c, i);
    DummyAnyIff(c, i);
  }

  /** The indicators are the levels after the first, in order. */
  lemma DummyShape(c: Column)
    ensures |DummyColumns(c)| == (if Levels(c) == [] then 0 else |Levels(c)| - 1)
    ensures forall j :: 0 <= j < |DummyColumns(c)| ==> DummyColumns(c)[j] == Indicator(c, Levels(c)[j + 1])
  {
  }

  /** On one row, two different levels cannot both be set. */
  lemma DummyAtMostOne(c: Column, i: nat)
    requires i < |c.cells|
    ensures forall j1, j2 :: 0 <= j1 < j2 < |DummyColumns(c)| ==>
      !(DummyColumns(c)[j1].cells[i] == Flag(true) && DummyColumns(c)[j2].cells[i] == Flag(true))
  {
    var lv := Levels(c);
    var ds := DummyColumns(c);
    DummyShape(c);
    forall j1, j2 | 0 <= j1 < j2 < |ds|
      ensures !(ds[j1].cells[i] == Flag(true) && ds[j2].cells[i] == Flag(true))
    {
      assert lv[j1 + 1] != lv[j2 + 1];
    }
  }

  /** One indicator is set on a row exactly when the row holds a level other than the first. */
  lemma DummyAnyIff(c: Column, i: nat)
    requires i < |c.cells|
    ensures (exists j :: 0 <= j < |DummyColumns(c)| && DummyColumns(c)[j].cells[i] == Flag(true))
      <==> c.cells[i].Str? && c.cells[i].s !in Levels(c)[..1]
  {
    var lv := Levels(c);
    var x := c.cells[i];
    assert x in c.cells;
    if lv != [] {
      var ds := DummyColumns(c);
      assert ds == Indicators(c, lv[1..]);
      IndicatorsAnyIff(c, lv[1..], i);
      if x.Str? {
        LaterLevel(lv, x.s);
      }
    }
  }

  /** In a list without repeats, a member other than the first is a member of the tail. */
  lemma LaterLevel(lv: seq<string>, s: string)
    requires lv != [] && s in lv
    requires forall i, j :: 0 <= i < j < |lv| ==> lv[i] != lv[j]
    ensures s !in lv[..1] <==> s in lv[1..]
  {
    assert lv[..1] == [lv[0]];
    if s != lv[0] {
      var m :| 0 <= m < |lv| && lv[m] == s;
      assert lv[1..][m - 1] == s;
    }
  }


  /** Some indicator of a list is set on a row exactly when the row holds one of its levels. */
  lemma IndicatorsAnyIff(c: Column, levels: seq<string>, i: nat)
    requires i < |c.cells|
    ensures (exists j :: 0 <= j < |levels| && Indicators(c, levels)[j].cells[i] == Flag(true))
      <==> c.cells[i].Str? && c.cells[i].s in levels
  {
    var ds := Indicators(c, levels);
    if c.cells[i].Str? && c.cells[i].s in levels {
      var j :| 0 <= j < |levels| && levels[j] == c.cells[i].s;
      assert ds[j].cells[i] == Flag(true);
    }
    forall j | 0 <= j < |levels| && ds[j].cells[i] == Flag(true)
      ensures c.cells[i].Str? && c.cells[i].s in levels
    {
      assert c.cells[i] == Str(levels[j]);
    }
  }



  predicate NotCategorical(d: Dtype) { !IsCategorical(d) }

  /** When the encoded names are exactly the categorical columns, the kept ones are the others, in order. */
  lemma {:induction false} KeptAreOthers(cols: seq<Column>, names: seq<string>)
    requires forall c :: c in cols ==> (c.name in names <==> IsCategorical(c.dtype))
    ensures KeptColumns(cols, names) == ColumnsWhere(cols, NotCategorical)
  {
    if cols != [] {
      assert forall c :: c in cols[1..] ==> c in cols;
      KeptAreOthers(cols[1..], names);
    }
  }

  /** The indicators produced for a list of names: those of each named column. */
  lemma {:induction false} EncodedMembers(t: Table, names: seq<string>)
    requires forall n :: n in names ==> HasColumn(t, n)
    ensures forall d :: d in EncodedColumns(t, names) <==> exists n :: n in names && d in DummyColumns(Get(t, n))
  {
    if names != [] {
      EncodedMembers(t, names[1..]);
      forall d | (exists n :: n in names && d in DummyColumns(Get(t, n)))
        ensures d in EncodedColumns(t, names)
      {
        var n :| n in names && d in DummyColumns(Get(t, n));
        if n != names[0] { assert n in names[1..]; }
      }
    }
  }

  /** A column's indicators are those of its levels after the first. */
  lemma DummyMembers(c: Column)
    ensures forall d :: d in DummyColumns(c) <==>
      exists j :: 1 <= j < |Levels(c)| && d == Indicator(c, Levels(c)[j])
  {
    var lv := Levels(c);
    var ds := DummyColumns(c);
    assert forall j :: 0 <= j < |ds| ==> ds[j] == Indicator(c, lv[j + 1]);
    forall d | d in ds ensures exists j :: 1 <= j < |lv| && d == Indicator(c, lv[j]) {
      var j :| 0 <= j < |ds| && ds[j] == d;
      assert d == Indicator(c, lv[j + 1]);
    }
    forall j | 1 <= j < |lv| ensures Indicator(c, lv[j]) in ds {
      assert ds[j - 1] == Indicator(c, lv[j]);
    }
  }

  /**
   * `get_dummies` on X: the non-categorical columns come first, in X's
   * order; every other column is an indicator of a categorical column of X
   * at one of its levels after the first, and every such indicator is
   * there; no categorical column is left.
   */
  lemma EncodingColumns(x: Table)
    requires WellFormed(x)
    ensures forall n :: n in CategoricalNames(x) ==> HasColumn(x, n)
    ensures Dummies(x, CategoricalNames(x)).cols
         == ColumnsWhere(x.cols, NotCategorical) + EncodedColumns(x, CategoricalNames(x))
    ensures forall d :: d in Dummies(x, CategoricalNames(x)).cols ==>
      || (d in x.cols && !IsCategorical(d.dtype))
      || (exists c, j :: c in x.cols && IsCategorical(c.dtype) && 1 <= j < |Levels(c)| && d == Indicator(c, Levels(c)[j]))
    ensures forall c, j :: c in x.cols && IsCategorical(c.dtype) && 1 <= j < |Levels(c)| ==>
      Indicator(c, Levels(c)[j]) in Dummies(x, CategoricalNames(x)).cols
    ensures forall d :: d in Dummies(x, CategoricalNames(x)).cols ==> !IsCategorical(d.dtype)
  {
    var cats := CategoricalNames(x);
    NamesHeld(x, IsCategorical);
    CategoricalByName(x);
    KeptAreOthers(x.cols, cats);
    EncodedSound(x);
    EncodedComplete(x);
  }

  /** A column of a well-formed table is encoded exactly when it is categorical. */
  lemma CategoricalByName(x: Table)
    requires WellFormed(x)
    ensures forall c :: c in x.cols ==> (c.name in CategoricalNames(x) <==> IsCategorical(c.dtype))
  {
    ColumnKinds(x);
    forall c | c in x.cols ensures c.name in CategoricalNames(x) <==> IsCategorical(c.dtype) {
      if c.name in CategoricalNames(x) {
        var d :| d in x.cols && d.name == c.name && IsCategorical(d.dtype);
        SameNameSameColumn(x, c, d);
      }
    }
  }

  /** Every produced indicator is one of a categorical column at a level after its first. */
  lemma EncodedSound(x: Table)
    requires WellFormed(x)
    ensures forall n :: n in CategoricalNames(x) ==> HasColumn(x, n)
    ensures forall e :: e in EncodedColumns(x, CategoricalNames(x)) ==>
      && e.dtype == Bool
      && exists c, j :: c in x.cols && IsCategorical(c.dtype) && 1 <= j < |Levels(c)| && e == Indicator(c, Levels(c)[j])
  {
    var cats := CategoricalNames(x);
    NamesHeld(x, IsCategorical);
    ColumnKinds(x);
    EncodedMembers(x, cats);
    forall e | e in EncodedColumns(x, cats)
      ensures e.dtype == Bool
      ensures exists c, j :: c in x.cols && IsCategorical(c.dtype) && 1 <= j < |Levels(c)| && e == Indicator(c, Levels(c)[j])
    {
      var n :| n in cats && e in DummyColumns(Get(x, n));
      var c :| c in x.cols && c.name == n && IsCategorical(c.dtype);
      GetOfIn(x, c);
      DummyMembers(c);
    }
  }

  /** Every indicator of a categorical column at a level after its first is produced. */
  lemma EncodedComplete(x: Table)
    requires WellFormed(x)
    ensures forall n :: n in CategoricalNames(x) ==> HasColumn(x, n)
    ensures forall c, j :: c in x.cols && IsCategorical(c.dtype) && 1 <= j < |Levels(c)| ==>
      Indicator(c, Levels(c)[j]) in EncodedColumns(x, CategoricalNames(x))
  {
    var cats := CategoricalNames(x);
    NamesHeld(x, IsCategorical);
    CategoricalByName(x);
    EncodedMembers(x, cats);
    forall c, j | c in x.cols && IsCategorical(c.dtype) && 1 <= j < |Levels(c)|
      ensures Indicator(c, Levels(c)[j]) in EncodedColumns(x, cats)
    {
      GetOfIn(x, c);
      DummyMembers(c);
      assert Indicator(c, Levels(c)[j]) in DummyColumns(Get(x, c.name));
    }
  }


  /** Replacing an existing column keeps the list of names. */
  lemma AssignExistingNames(t: Table, c: Column)
    requires HasColumn(t, c.name)
    ensures Names(Assign(t, c).cols) == Names(t.cols)
  {
    var k := IndexOf(t.cols, c.name);
    assert Assign(t, c).cols == t.cols[k := c];
  }

  /** Scaling leaves the column list and every column it does not scale as they were. */
  lemma {:induction false} ScaleKeepsOthers(t: Table, names: seq<string>, scale: Scaler)
    requires forall n :: n in names ==> HasColumn(t, n)
    ensures Names(Scale(t, names, scale).cols) == Names(t.cols)
    ensures forall n :: n !in names && HasColumn(t, n) ==> Get(Scale(t, names, scale), n) == Get(t, n)
    decreases |names|
  {
    if names != [] {
      var c := ScaledColumn(t, names[0], scale);
      var t' := Assign(t, c);
      AssignKeepsColumns(t, c);
      AssignExistingNames(t, c);
      ScaleKeepsOthers(t', names[1..], scale);
      forall n | n !in names && HasColumn(t, n) ensures Get(Scale(t, names, scale), n) == Get(t, n) {
        AssignKeepsOthers(t, c, n);
      }
    }
  }

  /** Each scaled column holds the scaler's output on the column as it was. */
  lemma {:induction false} ScaleRewrites(t: Table, names: seq<string>, scale: Scaler)
    requires forall n :: n in names ==> HasColumn(t, n)
    requires forall i, j :: 0 <= i < j < |names| ==> names[i] != names[j]
    ensures forall n :: n in names ==>
      && HasColumn(Scale(t, names, scale), n)
      && Get(Scale(t, names, scale), n) == Column(n, Float64, scale(n, Get(t, n).cells))
    decreases |names|
  {
    if names != [] {
      var c := ScaledColumn(t, names[0], scale);
      var t' := Assign(t, c);
      AssignKeepsColumns(t, c);
      AssignGet(t, c);
      ScaleRewrites(t', names[1..], scale);
      ScaleKeepsOthers(t', names[1..], scale);
      assert names[0] !in names[1..] by {
        forall k | 0 <= k < |names[1..]| ensures names[1..][k] != names[0] {
          assert names[1..][k] == names[k + 1];
        }
      }
      forall n | n in names[1..] ensures Get(t', n) == Get(t, n) {
        var k :| 0 <= k < |names[1..]| && names[1..][k] == n;
        assert names[k + 1] == n;
        AssignKeepsOthers(t, c, n);
      }
      assert Scale(t, names, scale) == Scale(t', names[1..], scale);
    }
  }

  /** The names `select_dtypes` returns are distinct when the table's are. */
  lemma KindNamesDistinct(cols: seq<Column>, p: Dtype -> bool)
    requires forall a, b :: 0 <= a < b < |cols| ==> cols[a].name != cols[b].name
    ensures forall i, j :: 0 <= i < j < |Names(ColumnsWhere(cols, p))| ==>
      Names(ColumnsWhere(cols, p))[i] != Names(ColumnsWhere(cols, p))[j]
  {
    WhereDistinct(cols, p);
  }

  lemma {:induction false} WhereDistinct(cols: seq<Column>, p: Dtype -> bool)
    requires forall a, b :: 0 <= a < b < |cols| ==> cols[a].name != cols[b].name
    ensures forall i, j :: 0 <= i < j < |ColumnsWhere(cols, p)| ==>
      ColumnsWhere(cols, p)[i].name != ColumnsWhere(cols, p)[j].name
  {
    if cols != [] {
      var rest := cols[1..];
      WhereDistinct(rest, p);
      var r := ColumnsWhere(rest, p);
      forall c | c in r ensures c.name != cols[0].name {
        var j :| 0 <= j < |rest| && rest[j] == c;
        assert cols[j + 1] == c;
      }
      if p(cols[0].dtype) {
        assert ColumnsWhere(cols, p) == [cols[0]] + r;
        ConsDistinctNames(cols[0], r);
      } else {
        assert ColumnsWhere(cols, p) == r;
      }
    }
  }

  /** A column whose name none of a list has can go in front of it. */
  lemma ConsDistinctNames(h: Column, r: seq<Column>)
    requires forall i, j :: 0 <= i < j < |r| ==> r[i].name != r[j].name
    requires forall c :: c in r ==> c.name != h.name
    ensures forall i, j :: 0 <= i < j < |[h] + r| ==> ([h] + r)[i].name != ([h] + r)[j].name
  {
    var w := [h] + r;
    forall i, j | 0 <= i < j < |w| ensures w[i].name != w[j].name {
      if i == 0 {
        assert w[j] == r[j - 1];
      } else {
        assert w[i] == r[i - 1] && w[j] == r[j - 1];
      }
    }
  }


  /**
   * `X[num_cols] = scaler.fit_transform(X[num_cols])` rewrites exactly the
   * numeric columns of X, each to the scaler's output on that column; every
   * other column, indicators included, is unchanged and the column order
   * stays.
   */
  lemma ScalingOnlyNumeric(x: Table, scale: Scaler)
    requires WellFormed(x) && KeepsLength(scale)
    ensures forall n :: n in CategoricalNames(x) ==> HasColumn(x, n)
    ensures Names(Design(x, scale).cols) == Names(Dummies(x, CategoricalNames(x)).cols)
    ensures forall n :: n !in NumericNames(x) && HasColumn(Dummies(x, CategoricalNames(x)), n) ==>
      Get(Design(x, scale), n) == Get(Dummies(x, CategoricalNames(x)), n)
    ensures forall n :: n in NumericNames(x) ==>
      && HasColumn(x, n) && HasColumn(Design(x, scale), n)
      && Get(Design(x, scale), n) == Column(n, Float64, scale(n, Get(x, n).cells))
  {
    var cats := CategoricalNames(x);
    var nums := NumericNames(x);
    DummiesKeepNumeric(x);
    NamesHeld(x, IsNumeric);
    var d := Dummies(x, cats);
    ScaleKeepsOthers(d, nums, scale);
    KindNamesDistinct(x.cols, IsNumeric);
    ScaleRewrites(d, nums, scale);
    forall n | n in nums ensures Get(d, n) == Get(x, n) {
      NumericKeptFirst(x, n);
    }
  }

  /** A numeric column of X is what its name looks up after encoding. */
  lemma NumericKeptFirst(x: Table, n: string)
    requires WellFormed(x) && n in NumericNames(x)
    ensures forall m :: m in CategoricalNames(x) ==> HasColumn(x, m)
    ensures HasColumn(x, n) && HasColumn(Dummies(x, CategoricalNames(x)), n)
    ensures Get(Dummies(x, CategoricalNames(x)), n) == Get(x, n)
  {
    var cats := CategoricalNames(x);
    DummiesKeepNumeric(x);
    NamesHeld(x, IsNumeric);
    ColumnKinds(x);
    var d := Dummies(x, cats);
    var kept := KeptColumns(x.cols, cats);
    var c :| c in x.cols && c.name == n && IsNumeric(c.dtype);
    GetOfIn(x, c);
    assert c in kept;
    FrontColumnFound(kept, EncodedColumns(x, cats), c);
    var g := IndexOf(d.cols, n);
    assert d.cols[g] in x.cols;
    SameNameSameColumn(x, d.cols[g], c);
  }

  /** The first column of a name in a joined list comes from the front part when the front has one. */
  lemma FrontColumnFound(a: seq<Column>, b: seq<Column>, c: Column)
    requires c in a
    ensures c.name in Names(a + b) && (a + b)[IndexOf(a + b, c.name)] in a
  {
    var k :| 0 <= k < |a| && a[k] == c;
    assert Names(a + b)[k] == c.name;
    var g := IndexOf(a + b, c.name);
    assert g <= k;
    assert (a + b)[g] == a[g];
  }
}
