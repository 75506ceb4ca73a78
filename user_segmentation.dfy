/**
 * Behavioural segmentation (etl/segmentation/51_user_segmentation.py): pick
 * the candidate variables present, fill their nulls with 0, score k-means
 * for k = 2..9 by silhouette, keep the first best k, label every user with
 * a cluster and count the users of each cluster.
 *
 * Standardisation, k-means and the silhouette score are numeric library
 * code: the model receives them as the parameters `fit` (the labels k-means
 * gives the filled variables for a given k) and `silhouette`.
 */
module UserSegmentation {
  import opened Common
  import opened Sorting
  import opened Frames

  const KeyName := "user_id"
  const ClusterName := "cluster"

  /** The variables the script looks for, in its order. */
  const Candidates: seq<string> := [
    "event_count", "recency_days", "unique_event_types",
    "credits_purchased", "credits_spent", "views",
    "avg_watch_time_sec", "sessions_7d"]

  /** The k values tried: `range(2, 10)`. */
  const MinK: nat := 2
  const MaxK: nat := 9

  datatype SegError =
    | MissingUserId
    | NoCandidateColumns
    | EmptyInput                      // the scaler refuses a table without rows
    | FewerRowsThanClusters(k: nat)   // k-means needs at least k rows
    | LabelLengthMismatch(k: nat)
    | SilhouetteUndefined(k: nat)     // needs between 2 and n - 1 distinct labels

  /** k-means: the cluster label of every row of the variables, for a given k. */
  type Clusterer = (Table, nat) -> seq<int>
  /** The silhouette score of a labelling of the variables. */
  type Silhouette = (Table, seq<int>) -> real

  // ---------------------------------------------------------------------
  // Column selection and null fill

  /** `[v for v in names if v in df.columns]`. */
  function Present(names: seq<string>, t: Table): (r: seq<string>)
    ensures |r| <= |names|
    ensures forall v :: v in r <==> v in names && HasColumn(t, v)
  {
    if names == [] then []
    else (if HasColumn(t, names[0]) then [names[0]] else []) + Present(names[1..], t)
  }

  /** The chosen variables keep the candidate order: the filter of an ordered list is ordered. */
  lemma {:induction false} PresentKeepsOrder(names: seq<string>, t: Table, i: nat, j: nat)
    requires i < j < |Present(names, t)|
    ensures exists a, b :: 0 <= a < b < |names| && names[a] == Present(names, t)[i] && names[b] == Present(names, t)[j]
  {
    var p := Present(names, t);
    var tail := names[1..];
    var rest := Present(tail, t);
    var shift := if HasColumn(t, names[0]) then 1 else 0;
    assert p == (if HasColumn(t, names[0]) then [names[0]] else []) + rest;
    if shift == 1 && i == 0 {
      assert p[j] in rest;
      var b :| 0 <= b < |tail| && tail[b] == p[j];
      assert names[0] == p[i] && names[b + 1] == p[j];
    } else {
      assert p[i] == rest[i - shift] && p[j] == rest[j - shift];
      PresentKeepsOrder(tail, t, i - shift, j - shift);
      var a, b :| 0 <= a < b < |tail| && tail[a] == rest[i - shift] && tail[b] == rest[j - shift];
      assert names[a + 1] == p[i] && names[b + 1] == p[j];
    }
  }


  /** With no candidate present nothing is chosen. */
  lemma {:induction false} PresentNone(names: seq<string>, t: Table)
    requires forall v :: v in names ==> !HasColumn(t, v)
    ensures Present(names, t) == []
  {
    if names != [] {
      assert names[0] in names;
      assert forall v :: v in names[1..] ==> v in names;
      PresentNone(names[1..], t);
    }
  }

  function ZeroIfNull(c: Cell): Cell
  {
    if c == Null then Num(0.0) else c
  }

  /** `fillna(0)` on one column. */
  function FillZero(c: Column): (r: Column)
    ensures r.name == c.name && r.dtype == c.dtype && |r.cells| == |c.cells|
    ensures forall i :: 0 <= i < |c.cells| ==> r.cells[i] != Null
    ensures forall i :: 0 <= i < |c.cells| ==> (c.cells[i] != Null ==> r.cells[i] == c.cells[i])
  {
    Column(c.name, c.dtype, seq(|c.cells|, i requires 0 <= i < |c.cells| => ZeroIfNull(c.cells[i])))
  }

  /** `X = df[vars_used].fillna(0)`. */
  function Variables(t: Table, vars: seq<string>): (x: Table)
    requires forall v :: v in vars ==> HasColumn(t, v)
    ensures Names(x.cols) == vars && x.height == t.height
    ensures forall i :: 0 <= i < |vars| ==> x.cols[i] == FillZero(Get(t, vars[i]))
  {
    var s := Select(t, vars);
    Table(seq(|s.cols|, i requires 0 <= i < |s.cols| => FillZero(s.cols[i])), s.height)
  }

  // ---------------------------------------------------------------------
  // Choosing k

  /** The checks k-means and the silhouette score make for one k. */
  function LabelProblem(x: Table, labels: seq<int>, k: nat): (e: Option<SegError>)
    ensures e.None? <==>
      && k <= x.height && |labels| == x.height
      && 2 <= |LabelSet(labels)| <= x.height - 1
  {
    if x.height < k then Some(FewerRowsThanClusters(k))
    else if |labels| != x.height then Some(LabelLengthMismatch(k))
    else if |LabelSet(labels)| < 2 || |LabelSet(labels)| > x.height - 1 then Some(SilhouetteUndefined(k))
    else None
  }

  function LabelSet(labels: seq<int>): set<int>
  {
    set l | l in labels
  }

  /** The silhouettes of k = 2 .. hi - 1, in order, or the first failure. */
  function Silhouettes(x: Table, fit: Clusterer, silhouette: Silhouette, hi: nat): (r: Result<seq<real>, SegError>)
    requires MinK <= hi <= MaxK + 1
    ensures r.Ok? ==> |r.value| == hi - MinK
    decreases hi
  {
    if hi == MinK then Ok([])
    else
      var prev := Silhouettes(x, fit, silhouette, hi - 1);
      if prev.Err? then prev
      else
        var labels := fit(x, hi - 1);
        var e := LabelProblem(x, labels, hi - 1);
        if e.Some? then Err(e.value) else Ok(prev.value + [silhouette(x, labels)])
  }

  /** Once a k fails, the whole search fails with that error. */
  lemma {:induction false} SilhouettesStopAtError(x: Table, fit: Clusterer, silhouette: Silhouette, lo: nat, hi: nat)
    requires MinK <= lo <= hi <= MaxK + 1
    requires Silhouettes(x, fit, silhouette, lo).Err?
    ensures Silhouettes(x, fit, silhouette, hi) == Silhouettes(x, fit, silhouette, lo)
    decreases hi
  {
    if hi > lo {
      SilhouettesStopAtError(x, fit, silhouette, lo, hi - 1);
    }
  }

  /** `k_values[np.argmax(silhouettes)]`. */
  function ChosenK(x: Table, fit: Clusterer, silhouette: Silhouette): Result<nat, SegError>
  {
    var s := Silhouettes(x, fit, silhouette, MaxK + 1);
    if s.Err? then Err(s.error) else Ok(MinK + FirstArgMax(s.value))
  }

  /** The k loop: one k-means run and one silhouette per k, appended in order. */
  method ChooseK(x: Table, fit: Clusterer, silhouette: Silhouette) returns (r: Result<nat, SegError>)
    ensures r == ChosenK(x, fit, silhouette)
  {
    var scores: seq<real> := [];
    var k := MinK;
    while k <= MaxK
      invariant MinK <= k <= MaxK + 1
      invariant Silhouettes(x, fit, silhouette, k) == Ok(scores)
    {
      var labels := fit(x, k);
      var e := LabelProblem(x, labels, k);
      if e.Some? {
        SilhouettesStopAtError(x, fit, silhouette, k + 1, MaxK + 1);
        return Err(e.value);
      }
      scores := scores + [silhouette(x, labels)];
      k := k + 1;
    }
    r := Ok(MinK + FirstArgMax(scores));
  }

  /** The chosen k lies in 2..9 and is the first k of maximal silhouette. */
  lemma ChosenKIsFirstBest(x: Table, fit: Clusterer, silhouette: Silhouette)
    requires ChosenK(x, fit, silhouette).Ok?
    ensures var k := ChosenK(x, fit, silhouette).value;
      var s := Silhouettes(x, fit, silhouette, MaxK + 1).value;
      && MinK <= k <= MaxK && |s| == MaxK - MinK + 1
      && (forall i :: 0 <= i < |s| ==> s[i] <= s[k - MinK])
      && (forall i :: 0 <= i < k - MinK ==> s[i] < s[k - MinK])
  {
  }

  /** Every k from 2 to 9 was scored on labels that passed the checks. */
  lemma {:induction false} SilhouettesScoreEveryK(x: Table, fit: Clusterer, silhouette: Silhouette, hi: nat)
    requires MinK <= hi <= MaxK + 1
    requires Silhouettes(x, fit, silhouette, hi).Ok?
    ensures forall k :: MinK <= k < hi ==>
      && LabelProblem(x, fit(x, k), k).None?
      && Silhouettes(x, fit, silhouette, hi).value[k - MinK] == silhouette(x, fit(x, k))
    decreases hi
  {
    if hi > MinK {
      SilhouettesScoreEveryK(x, fit, silhouette, hi - 1);
    }
  }

  // ---------------------------------------------------------------------
  // The cluster summary

  predicate IntLe(a: int, b: int) { a <= b }

  function Identity(x: int): int { x }

  /** The cluster ids in ascending order, each once (`groupby("cluster")` keys). */
  function ClusterIds(labels: seq<int>): seq<int>
  {
    KeepFirst(SortBy(labels, IntLe), Identity)
  }

  /** The ids are exactly the labels used, strictly ascending. */
  lemma ClusterIdsAscending(labels: seq<int>)
    ensures forall c :: c in ClusterIds(labels) <==> c in labels
    ensures forall i, j :: 0 <= i < j < |ClusterIds(labels)| ==> ClusterIds(labels)[i] < ClusterIds(labels)[j]
  {
    var ids := ClusterIds(labels);
    assert TotalPreorder(IntLe);
    SortKeepFirstLeast(labels, IntLe, Identity);
    SortKeepFirstMembers(labels, IntLe, Identity);
    SortKeepFirstCovers(labels, IntLe, Identity);
    forall i, j | 0 <= i < j < |ids| ensures ids[i] < ids[j] {
      assert IntLe(ids[i], ids[j]);
      assert Identity(ids[i]) != Identity(ids[j]);
    }
  }

  /** One summary row: a cluster id and its number of users. */
  datatype SummaryRow = SummaryRow(cluster: int, userCount: nat)

  function UsersIn(labels: seq<int>, c: int): nat
  {
    Count(labels, Is(c))
  }

  function Is(c: int): int -> bool { (l: int) => l == c }
  function Among(ids: seq<int>): int -> bool { (l: int) => l in ids }
  function NotAmong(ids: seq<int>): int -> bool { (l: int) => l !in ids }

  function Summary(labels: seq<int>): (rows: seq<SummaryRow>)
    ensures |rows| == |ClusterIds(labels)|
    ensures forall i :: 0 <= i < |rows| ==>
      rows[i].cluster == ClusterIds(labels)[i] && rows[i].userCount == UsersIn(labels, rows[i].cluster)
  {
    var ids := ClusterIds(labels);
    seq(|ids|, i requires 0 <= i < |ids| => SummaryRow(ids[i], UsersIn(labels, ids[i])))
  }

  function TotalUsers(rows: seq<SummaryRow>): nat
  {
    if rows == [] then 0 else rows[0].userCount + TotalUsers(rows[1..])
  }

  lemma LabelsHaveIds(labels: seq<int>)
    ensures forall i :: 0 <= i < |labels| ==> !NotAmong(ClusterIds(labels))(labels[i])
  {
    forall i | 0 <= i < |labels| ensures labels[i] in ClusterIds(labels) {
      LabelHasId(labels, i);
    }
  }

  lemma LabelHasId(labels: seq<int>, i: nat)
    requires i < |labels|
    ensures labels[i] in ClusterIds(labels)
  {
    ClusterIdsAscending(labels);
    var c := labels[i];
    assert c in labels;
  }

  /** The cluster counts add up to the number of users. */
  lemma SummaryCoversUsers(labels: seq<int>)
    ensures TotalUsers(Summary(labels)) == |labels|
  {
    var ids := ClusterIds(labels);
    ClusterIdsAscending(labels);
    LabelsHaveIds(labels);
    CountZero(labels, NotAmong(ids));
    CountsOfDistinct(labels, ids, Summary(labels));
    CountComplement(labels, Among(ids), NotAmong(ids));
  }

  /** Every cluster of the summary has at least one user. */
  lemma SummaryClustersNonEmpty(labels: seq<int>)
    ensures forall r :: r in Summary(labels) ==> r.userCount > 0
  {
    var rows := Summary(labels);
    ClusterIdsAscending(labels);
    forall r | r in rows ensures r.userCount > 0 {
      var i :| 0 <= i < |rows| && rows[i] == r;
      assert r.cluster in labels;
      var j :| 0 <= j < |labels| && labels[j] == r.cluster;
      CountZero(labels, Is(r.cluster));
    }
  }

  /** Counting each of some distinct ids separately counts the labels among them. */
  lemma {:induction false} CountsOfDistinct(labels: seq<int>, ids: seq<int>, rows: seq<SummaryRow>)
    requires forall i, j :: 0 <= i < j < |ids| ==> ids[i] != ids[j]
    requires |rows| == |ids|
    requires forall i :: 0 <= i < |rows| ==> rows[i].userCount == UsersIn(labels, ids[i])
    ensures TotalUsers(rows) == Count(labels, Among(ids))
  {
    if ids == [] {
      CountZero(labels, Among(ids));
    } else {
      var rest := ids[1..];
      CountsOfDistinct(labels, rest, rows[1..]);
      CountDisjointUnion(labels, Is(ids[0]), Among(rest), Among(ids));
    }
  }

  // ---------------------------------------------------------------------
  // segment_users

  /** What the run produces: the variables used, the k chosen, a label per user, the summary. */
  datatype Segmentation = Segmentation(vars: seq<string>, k: nat, labels: seq<int>, summary: seq<SummaryRow>)

  function LabelColumn(labels: seq<int>): Column
  {
    Column(ClusterName, Int64, seq(|labels|, i requires 0 <= i < |labels| => Num(labels[i] as real)))
  }

  /** `segment_users`, from the loaded table to the segmentation. */
  function Segmented(t: Table, fit: Clusterer, silhouette: Silhouette): Result<Segmentation, SegError>
  {
    if !HasColumn(t, KeyName) then Err(MissingUserId)
    else
      var vars := Present(Candidates, t);
      if vars == [] then Err(NoCandidateColumns)
      else if t.height == 0 then Err(EmptyInput)
      else
        var x := Variables(t, vars);
        var k := ChosenK(x, fit, silhouette);
        if k.Err? then Err(k.error)
        else
          var labels := fit(x, k.value);
          if |labels| != t.height then Err(LabelLengthMismatch(k.value))
          else Ok(Segmentation(vars, k.value, labels, Summary(labels)))
  }

  /** The run: on success the labels become the table's `cluster` column. */
  method SegmentUsers(df: DataFrame, fit: Clusterer, silhouette: Silhouette) returns (r: Result<Segmentation, SegError>)
    modifies df
    ensures r == Segmented(old(df.Value()), fit, silhouette)
    ensures r.Ok? ==> df.Value() == Assign(old(df.Value()), LabelColumn(r.value.labels))
    ensures r.Err? ==> df.Value() == old(df.Value())
  {
    var t := df.Value();
    if KeyName !in Names(t.cols) {
      return Err(MissingUserId);
    }
    var vars := Present(Candidates, t);
    if vars == [] {
      return Err(NoCandidateColumns);
    }
    if t.height == 0 {
      return Err(EmptyInput);
    }
    var x := Variables(t, vars);
    var k := ChooseK(x, fit, silhouette);
    if k.Err? {
      return Err(k.error);
    }
    var labels := fit(x, k.value);
    if |labels| != t.height {
      return Err(LabelLengthMismatch(k.value));
    }
    df.AssignInPlace(LabelColumn(labels));
    r := Ok(Segmentation(vars, k.value, labels, Summary(labels)));
  }

  /**
   * A run fails without `user_id` or without any candidate variable; when it
   * succeeds it used exactly the candidates present, chose k in 2..9 and
   * labelled every user once.
   */
  lemma SegmentedShape(t: Table, fit: Clusterer, silhouette: Silhouette)
    ensures !HasColumn(t, KeyName) ==> Segmented(t, fit, silhouette) == Err(MissingUserId)
    ensures HasColumn(t, KeyName) && (forall v :: v in Candidates ==> !HasColumn(t, v)) ==>
      Segmented(t, fit, silhouette) == Err(NoCandidateColumns)
    ensures Segmented(t, fit, silhouette).Ok? ==>
      var s := Segmented(t, fit, silhouette).value;
      && (forall v :: v in s.vars <==> v in Candidates && HasColumn(t, v))
      && MinK <= s.k <= MaxK
      && |s.labels| == t.height
      && TotalUsers(s.summary) == t.height
  {
    if HasColumn(t, KeyName) && (forall v :: v in Candidates ==> !HasColumn(t, v)) {
      PresentNone(Candidates, t);
    }
    if Segmented(t, fit, silhouette).Ok? {
      SegmentedSuccess(t, fit, silhouette);
    }
  }

  lemma SegmentedSuccess(t: Table, fit: Clusterer, silhouette: Silhouette)
    requires Segmented(t, fit, silhouette).Ok?
    ensures var s := Segmented(t, fit, silhouette).value;
      && (forall v :: v in s.vars <==> v in Candidates && HasColumn(t, v))
      && MinK <= s.k <= MaxK
      && |s.labels| == t.height
      && TotalUsers(s.summary) == t.height
  {
    var vars := Present(Candidates, t);
    var x := Variables(t, vars);
    var k := ChosenK(x, fit, silhouette);
    var labels := fit(x, k.value);
    assert Segmented(t, fit, silhouette).value == Segmentation(vars, k.value, labels, Summary(labels));
    ChosenKIsFirstBest(x, fit, silhouette);
    SummaryCoversUsers(labels);
  }
}
