/**
 * `build_features` (etl/10_build_features.py): the user columns, joined with
 * up to three aggregate parts (per-type event counts, active days, sessions),
 * then three zero-safe ratios, a fixed-weight engagement score, and a null
 * fill chosen by column type. The merge loop rebinds the table; the ratio,
 * score and fill steps change it in place.
 */
module FeatureTable {
  import opened Common
  import opened Sorting
  import opened Records
  import opened Frames

  /** A column of an aggregate part: a value per user id of the part. */
  datatype PartColumn = PartColumn(name: string, dtype: Dtype, values: map<Id, Cell>)

  /** An aggregate frame keyed by `user_id`: its ids (its rows) and its other columns. */
  datatype Part = Part(keys: set<Id>, cols: seq<PartColumn>)

  const UserColumns: seq<string> :=
    ["user_id", "signup_date", "last_active_date", "country", "device", "language", "subscription_type"]
  const ActiveDaysName: string := "active_days"
  const SessionsName: string := "sessions"
  const AvgName: string := "avg_events_per_session"
  const CountName: string := "ev_count"
  const EngagementName: string := "engagement_score"
  const RatioPairs: seq<(string, string)> := [("ev_play", "ev_open"), ("ev_pause", "ev_play"), ("ev_next", "ev_play")]
  const Components: seq<string> := ["ev_play", "ev_pause", "ev_next", "active_days", "sessions"]

  // ---------------------------------------------------------------------
  // The user columns

  function TimeCell(t: Option<int>): Cell { if t.Some? then Time(t.value) else Null }
  function TextCell(s: Option<string>): Cell { if s.Some? then Str(s.value) else Null }

  function Ids(users: seq<User>): (ids: seq<Id>)
    ensures |ids| == |users| && forall i :: 0 <= i < |users| ==> ids[i] == users[i].userId
  {
    seq(|users|, i requires 0 <= i < |users| => users[i].userId)
  }

  /** `users[[seven columns]].copy()`. */
  /** The k-th column of the user table, in `users` order. */
  function UserColumn(users: seq<User>, k: nat): (c: Column)
    requires k < |UserColumns|
    ensures c.name == UserColumns[k] && |c.cells| == |users|
  {
    var n := |users|;
    if k == 0 then Column("user_id", Int64, seq(n, i requires 0 <= i < n => Num(users[i].userId as real)))
    else if k == 1 then Column("signup_date", DateTime, seq(n, i requires 0 <= i < n => TimeCell(users[i].signupDate)))
    else if k == 2 then Column("last_active_date", DateTime, seq(n, i requires 0 <= i < n => TimeCell(users[i].lastActiveDate)))
    else if k == 3 then Column("country", Object, seq(n, i requires 0 <= i < n => TextCell(users[i].country)))
    else if k == 4 then Column("device", Object, seq(n, i requires 0 <= i < n => TextCell(users[i].device)))
    else if k == 5 then Column("language", Object, seq(n, i requires 0 <= i < n => TextCell(users[i].language)))
    else Column("subscription_type", Object, seq(n, i requires 0 <= i < n => TextCell(users[i].subscriptionType)))
  }

  function UserTable(users: seq<User>): (t: Table)
    ensures t.height == |users| && Names(t.cols) == UserColumns && WellFormed(t)
  {
    var t := Table(seq(|UserColumns|, k requires 0 <= k < |UserColumns| => UserColumn(users, k)), |users|);
    assert Names(t.cols) == UserColumns;
    t
  }


  // ---------------------------------------------------------------------
  // The aggregate parts

  /** Events the pivot sees: a user id and an event type. */
  function TypedEvents(events: seq<Event>): (r: seq<Event>)
    ensures forall e :: e in r <==> e in events && e.userId.Some? && e.eventType.Some?
  {
    if events == [] then []
    else (if events[0].userId.Some? && events[0].eventType.Some? then [events[0]] else []) + TypedEvents(events[1..])
  }

  /** The event type of each event, in order. */
  function EventTypes(te: seq<Event>): (ts: seq<string>)
    requires forall e :: e in te ==> e.eventType.Some?
    ensures forall t :: t in ts <==> exists e :: e in te && e.eventType == Some(t)
  {
    if te == [] then []
    else
      var rest := EventTypes(te[1..]);
      assert forall e :: e in te[1..] ==> e in te;
      assert forall e :: e in te ==> e == te[0] || e in te[1..];
      [te[0].eventType.value] + rest
  }

  /** The pivot's columns: the distinct event types, in sorted order. */
  function PivotTypes(events: seq<Event>): (ts: seq<string>)
    ensures forall t :: t in ts <==> exists e :: e in events && e.userId.Some? && e.eventType == Some(t)
    ensures forall i, j :: 0 <= i < j < |ts| ==> ts[i] != ts[j]
  {
    SortedUnique(EventTypes(TypedEvents(events)))
  }

  /** The pivot's rows: ids with an event of non-null type. */
  function PivotKeys(events: seq<Event>): set<Id>
  {
    set e | e in events && e.userId.Some? && e.eventType.Some? :: e.userId.value
  }

  /** `aggfunc="count"` of `event_uuid`: the user's events of that type with a uuid. */
  function TypeCount(events: seq<Event>, id: Id, t: string): nat
  {
    if events == [] then 0
    else
      (if events[0].userId == Some(id) && events[0].eventType == Some(t) && events[0].eventUuid.Some? then 1 else 0)
      + TypeCount(events[1..], id, t)
  }

  function EvName(t: string): string { "ev_" + t }

  /** `pivot_table(..., aggfunc="count", fill_value=0).add_prefix("ev_")`. */
  function Pivot(events: seq<Event>): Part
  {
    var keys := PivotKeys(events);
    var types := PivotTypes(events);
    Part(keys, seq(|types|, j requires 0 <= j < |types| =>
      PartColumn(EvName(types[j]), Int64, map id | id in keys :: Num(TypeCount(events, id, types[j]) as real))))
  }

  /** Number of the user's events (a group's `size()`). */
  function EventsOf(events: seq<Event>, id: Id): nat
  {
    if events == [] then 0
    else (if events[0].userId == Some(id) then 1 else 0) + EventsOf(events[1..], id)
  }

  /** Without an `event_type` column: `groupby("user_id").size()` as `ev_count`. */
  function CountPart(events: seq<Event>): Part
  {
    var keys := set e | e in events && e.userId.Some? :: e.userId.value;
    Part(keys, [PartColumn(CountName, Int64, map id | id in keys :: Num(EventsOf(events, id) as real))])
  }

  /** The calendar dates of the user's events with a timestamp. */
  function DaysOf(events: seq<Event>, id: Id): set<int>
  {
    set e | e in events && e.userId == Some(id) && e.eventTimestamp.Some? :: DayOf(e.eventTimestamp.value)
  }

  /** `dropna(subset=["event_date"]).groupby("user_id")["event_date"].nunique()`. */
  function ActiveDaysPart(events: seq<Event>): Part
  {
    var keys := set e | e in events && e.userId.Some? && e.eventTimestamp.Some? :: e.userId.value;
    Part(keys, [PartColumn(ActiveDaysName, Int64, map id | id in keys :: Num(|DaysOf(events, id)| as real))])
  }

  /** The user's distinct non-null session ids. */
  function SessionsOf(events: seq<Event>, id: Id): set<Id>
  {
    set e | e in events && e.userId == Some(id) && e.sessionId.Some? :: e.sessionId.value
  }

  /** The user's events with a session id. */
  function SessionEvents(events: seq<Event>, id: Id): nat
  {
    if events == [] then 0
    else (if events[0].userId == Some(id) && events[0].sessionId.Some? then 1 else 0) + SessionEvents(events[1..], id)
  }

  /** Mean events per session: the events with a session over the sessions. */
  function AvgPerSession(events: seq<Event>, id: Id): real
  {
    if |SessionsOf(events, id)| == 0 then 0.0
    else (SessionEvents(events, id) as real) / (|SessionsOf(events, id)| as real)
  }

  /** The session aggregates; without a `session_id` column an empty frame. */
  function SessionsPart(events: seq<Event>, hasSessionColumn: bool): Part
  {
    var keys := if hasSessionColumn then set e | e in events && e.userId.Some? && e.sessionId.Some? :: e.userId.value else {};
    Part(keys, [
      PartColumn(SessionsName, Int64, map id | id in keys :: Num(|SessionsOf(events, id)| as real)),
      PartColumn(AvgName, Float64, map id | id in keys :: Num(AvgPerSession(events, id)))])
  }

  /** `[ev_pivot, active_days, sessions_agg]`. */
  function Parts(events: seq<Event>, hasTypeColumn: bool, hasSessionColumn: bool): seq<Part>
  {
    [if hasTypeColumn then Pivot(events) else CountPart(events), ActiveDaysPart(events), SessionsPart(events, hasSessionColumn)]
  }

  // ---------------------------------------------------------------------
  // The merge loop

  /**
   * A part column after `merge(how="left")`: the part's value for a matched
   * id, null otherwise; an integer column with a null becomes float.
   */
  function MergedColumn(ids: seq<Id>, c: PartColumn): (m: Column)
    ensures m.name == c.name && |m.cells| == |ids|
  {
    var unmatched := exists i :: 0 <= i < |ids| && ids[i] !in c.values;
    Column(c.name, if c.dtype == Int64 && unmatched then Float64 else c.dtype,
      seq(|ids|, i requires 0 <= i < |ids| => if ids[i] in c.values then c.values[ids[i]] else Null))
  }

  function MergedColumns(ids: seq<Id>, cols: seq<PartColumn>): (m: seq<Column>)
    ensures |m| == |cols|
    ensures forall j :: 0 <= j < |cols| ==> m[j] == MergedColumn(ids, cols[j])
  {
    seq(|cols|, j requires 0 <= j < |cols| => MergedColumn(ids, cols[j]))
  }

  /** `feat.merge(part, on="user_id", how="left")`. */
  function MergePart(t: Table, ids: seq<Id>, p: Part): Table
  {
    Table(t.cols + MergedColumns(ids, p.cols), t.height)
  }

  /** The merge loop: each non-empty part in turn. */
  function MergeAll(t: Table, ids: seq<Id>, parts: seq<Part>): Table
    decreases |parts|
  {
    if parts == [] then t
    else MergeAll(if parts[0].keys == {} then t else MergePart(t, ids, parts[0]), ids, parts[1..])
  }

  // ---------------------------------------------------------------------
  // Ratios, score and fill

  /** `(feat[a] / feat[b].replace(0, nan)).fillna(0.0)` on one row. */
  function RatioCell(x: Cell, y: Cell): Cell
  {
    if x.Num? && y.Num? && y.x != 0.0 then Num(x.x / y.x) else Num(0.0)
  }

  function RatioName(a: string, b: string): string { "ratio_" + a + "_" + b }

  function RatioColumn(t: Table, a: string, b: string): (c: Column)
    requires WellFormed(t) && HasColumn(t, a) && HasColumn(t, b)
    ensures c.name == RatioName(a, b) && |c.cells| == t.height
  {
    var ca := Get(t, a).cells;
    var cb := Get(t, b).cells;
    Column(RatioName(a, b), Float64, seq(t.height, i requires 0 <= i < t.height => RatioCell(ca[i], cb[i])))
  }

  /** One pass of the ratio loop: only when both columns exist. */
  function AddRatio(t: Table, a: string, b: string): (r: Table)
    requires WellFormed(t)
    ensures WellFormed(r) && r.height == t.height
    ensures |r.cols| >= |t.cols| && Names(r.cols)[..|t.cols|] == Names(t.cols)
  {
    if HasColumn(t, a) && HasColumn(t, b) then
      AssignWellFormed(t, RatioColumn(t, a, b));
      AssignNamesPrefix(t, RatioColumn(t, a, b));
      Assign(t, RatioColumn(t, a, b))
    else t
  }

  lemma PrefixOfPrefix(x: seq<string>, y: seq<string>, z: seq<string>)
    requires |z| <= |y| <= |x| && x[..|y|] == y && y[..|z|] == z
    ensures x[..|z|] == z
  {
    assert x[..|z|] == x[..|y|][..|z|];
  }

  /** The ratio loop peels off its first pair. */
  lemma AddRatiosStep(t: Table, pairs: seq<(string, string)>)
    requires WellFormed(t) && pairs != []
    ensures AddRatios(t, pairs) == AddRatios(AddRatio(t, pairs[0].0, pairs[0].1), pairs[1..])
  {
  }

  function AddRatios(t: Table, pairs: seq<(string, string)>): (r: Table)
    requires WellFormed(t)
    ensures WellFormed(r) && r.height == t.height
    ensures |r.cols| >= |t.cols| && Names(r.cols)[..|t.cols|] == Names(t.cols)
    decreases |pairs|
  {
    if pairs == [] then t
    else
      var t1 := AddRatio(t, pairs[0].0, pairs[0].1);
      var r := AddRatios(t1, pairs[1..]);
      PrefixOfPrefix(Names(r.cols), Names(t1.cols), Names(t.cols));
      r
  }

  /** `r.get(name, 0)` after `fillna(0)`: an absent column or a null counts as 0. */
  function ComponentValue(t: Table, name: string, i: nat): real
    requires WellFormed(t) && i < t.height
  {
    if HasColumn(t, name) && Get(t, name).cells[i].Num? then Get(t, name).cells[i].x else 0.0
  }

  /** The weighted engagement score of one row. */
  function Score(t: Table, i: nat): real
    requires WellFormed(t) && i < t.height
  {
    1.0 * ComponentValue(t, "ev_play", i) + 0.5 * ComponentValue(t, "ev_pause", i)
    + 1.2 * ComponentValue(t, "ev_next", i) + 3.0 * ComponentValue(t, "active_days", i)
    + 2.0 * ComponentValue(t, "sessions", i)
  }

  /** Some component column exists. */
  predicate AnyComponent(t: Table)
  {
    exists k :: 0 <= k < |Components| && HasColumn(t, Components[k])
  }

  /** The score of every row, `fillna(0).apply(...)`. */
  function EngagementColumn(t: Table): (c: Column)
    requires WellFormed(t)
    ensures c.name == EngagementName && |c.cells| == t.height
  {
    Column(EngagementName, Float64, seq(t.height, i requires 0 <= i < t.height => Num(Score(t, i))))
  }

  /** `feat["engagement_score"] = ...`, only when some component exists. */
  function AddEngagement(t: Table): (r: Table)
    requires WellFormed(t)
    ensures WellFormed(r) && r.height == t.height
    ensures |r.cols| >= |t.cols| && Names(r.cols)[..|t.cols|] == Names(t.cols)
  {
    if AnyComponent(t) then
      AssignWellFormed(t, EngagementColumn(t));
      AssignNamesPrefix(t, EngagementColumn(t));
      Assign(t, EngagementColumn(t))
    else t
  }

  /** `fillna(0)` on integer/float columns, `fillna("unknown")` on object columns; others as they are. */
  function FillColumn(c: Column): (r: Column)
    ensures r.name == c.name && r.dtype == c.dtype && |r.cells| == |c.cells|
    ensures !IsNumeric(c.dtype) && c.dtype != Object ==> r == c
    ensures forall i :: 0 <= i < |c.cells| && c.cells[i] != Null ==> r.cells[i] == c.cells[i]
    ensures forall i :: 0 <= i < |c.cells| && c.cells[i] == Null && IsNumeric(c.dtype) ==> r.cells[i] == Num(0.0)
    ensures forall i :: 0 <= i < |c.cells| && c.cells[i] == Null && c.dtype == Object ==> r.cells[i] == Str("unknown")
  {
    if IsNumeric(c.dtype) then
      c.(cells := seq(|c.cells|, i requires 0 <= i < |c.cells| => if c.cells[i] == Null then Num(0.0) else c.cells[i]))
    else if c.dtype == Object then
      c.(cells := seq(|c.cells|, i requires 0 <= i < |c.cells| => if c.cells[i] == Null then Str("unknown") else c.cells[i]))
    else c
  }

  function FillAll(t: Table): (r: Table)
    ensures r.height == t.height && |r.cols| == |t.cols|
    ensures forall k :: 0 <= k < |t.cols| ==> r.cols[k] == FillColumn(t.cols[k])
  {
    Table(seq(|t.cols|, k requires 0 <= k < |t.cols| => FillColumn(t.cols[k])), t.height)
  }

  /** The table after the merge loop. */
  function Merged(users: seq<User>, events: seq<Event>, hasTypeColumn: bool, hasSessionColumn: bool): Table
  {
    MergeAll(UserTable(users), Ids(users), Parts(events, hasTypeColumn, hasSessionColumn))
  }

  /** The steps after the ratio loop: score, then fill. */
  function ScoreAndFill(t: Table): Table
    requires WellFormed(t)
  {
    FillAll(AddEngagement(t))
  }

  /** The steps after the merge loop: ratios, score, fill. */
  function Finish(m: Table): Table
    requires WellFormed(m)
  {
    ScoreAndFill(AddRatios(m, RatioPairs))
  }

  /** The table `build_features` writes. */
  function Features(users: seq<User>, events: seq<Event>, hasTypeColumn: bool, hasSessionColumn: bool): Table
  {
    MergedWellFormed(users, events, hasTypeColumn, hasSessionColumn);
    Finish(Merged(users, events, hasTypeColumn, hasSessionColumn))
  }

  /** No integer, float or object column holds a null. */
  ghost predicate NoNumericOrTextNulls(t: Table)
  {
    forall k, i :: 0 <= k < |t.cols| && 0 <= i < |t.cols[k].cells| ==>
      (IsNumeric(t.cols[k].dtype) || t.cols[k].dtype == Object) ==> t.cols[k].cells[i] != Null
  }

  // ---------------------------------------------------------------------
  // The procedure

  method BuildFeatures(users: seq<User>, events: seq<Event>, hasTypeColumn: bool, hasSessionColumn: bool)
    returns (feat: Table)
    ensures feat == Features(users, events, hasTypeColumn, hasSessionColumn)
    ensures WellFormed(feat) && feat.height == |users|
    ensures |feat.cols| >= |UserColumns| && Names(feat.cols)[..|UserColumns|] == UserColumns
    ensures NoNumericOrTextNulls(feat)
  {
    var ids := Ids(users);
    var parts := Parts(events, hasTypeColumn, hasSessionColumn);
    ghost var merged := Merged(users, events, hasTypeColumn, hasSessionColumn);
    MergedWellFormed(users, events, hasTypeColumn, hasSessionColumn);

    // for part in [ev_pivot, active_days, sessions_agg]
    feat := UserTable(users);
    var i := 0;
    while i < |parts|
      invariant 0 <= i <= |parts|
      invariant MergeAll(feat, ids, parts[i..]) == merged
    {
      if parts[i].keys != {} {
        feat := MergePart(feat, ids, parts[i]);
      }
      assert parts[i..][1..] == parts[i + 1..];
      i := i + 1;
    }

    var df := new DataFrame(feat);
    AddRatiosInPlace(df);
    AddEngagementInPlace(df);
    FillInPlace(df);
    feat := df.Value();
    FeaturesFacts(users, events, hasTypeColumn, hasSessionColumn);
  }

  /** The ratio loop. */
  method AddRatiosInPlace(df: DataFrame)
    requires WellFormed(df.Value())
    modifies df
    ensures WellFormed(old(df.Value())) && df.Value() == AddRatios(old(df.Value()), RatioPairs)
  {
    ghost var start := df.Value();
    var k := 0;
    while k < |RatioPairs|
      invariant 0 <= k <= |RatioPairs|
      invariant WellFormed(df.Value())
      invariant AddRatios(df.Value(), RatioPairs[k..]) == AddRatios(start, RatioPairs)
    {
      ghost var before := df.Value();
      var (a, b) := RatioPairs[k];
      if HasColumn(df.Value(), a) && HasColumn(df.Value(), b) {
        var c := RatioColumn(df.Value(), a, b);
        AssignWellFormed(df.Value(), c);
        df.AssignInPlace(c);
      }
      assert df.Value() == AddRatio(before, a, b);
      AddRatiosStep(before, RatioPairs[k..]);
      assert RatioPairs[k..][1..] == RatioPairs[k + 1..];
      k := k + 1;
    }
  }

  /** `feat["engagement_score"] = ...` when some component exists. */
  method AddEngagementInPlace(df: DataFrame)
    requires WellFormed(df.Value())
    modifies df
    ensures WellFormed(old(df.Value())) && df.Value() == AddEngagement(old(df.Value()))
  {
    var v := df.Value();
    if AnyComponent(v) {
      df.AssignInPlace(EngagementColumn(v));
    }
  }

  /** The fill loop, column by column. */
  method FillInPlace(df: DataFrame)
    modifies df
    ensures df.Value() == FillAll(old(df.Value()))
  {
    ghost var start := df.Value();
    var j := 0;
    while j < |df.cols|
      invariant 0 <= j <= |df.cols| == |start.cols|
      invariant df.height == start.height
      invariant forall q :: 0 <= q < j ==> df.cols[q] == FillColumn(start.cols[q])
      invariant forall q :: j <= q < |df.cols| ==> df.cols[q] == start.cols[q]
    {
      var col := df.cols[j];
      if IsNumeric(col.dtype) || col.dtype == Object {
        df.ReplaceAt(j, FillColumn(col));
      }
      j := j + 1;
    }
  }

  // ---------------------------------------------------------------------
  // Shape

  /** The fill keeps every name and height and leaves no null in a numeric or object column. */
  lemma FillAllFacts(t: Table)
    requires WellFormed(t)
    ensures WellFormed(FillAll(t)) && NoNumericOrTextNulls(FillAll(t))
    ensures Names(FillAll(t).cols) == Names(t.cols)
  {
  }

  /** The steps after the merge keep the merged columns' names in their places. */
  lemma FinishNamesPrefix(m: Table)
    requires WellFormed(m)
    ensures |Finish(m).cols| >= |m.cols| && Names(Finish(m).cols)[..|m.cols|] == Names(m.cols)
  {
    var s := AddEngagement(AddRatios(m, RatioPairs));
    FillAllFacts(s);
    assert Names(s.cols)[..|m.cols|] == Names(s.cols)[..|AddRatios(m, RatioPairs).cols|][..|m.cols|];
  }

  /** The output is well formed, one row per user, and has no null number or text. */
  lemma FeaturesFacts(users: seq<User>, events: seq<Event>, hasTypeColumn: bool, hasSessionColumn: bool)
    ensures var f := Features(users, events, hasTypeColumn, hasSessionColumn);
      && WellFormed(f) && f.height == |users| && NoNumericOrTextNulls(f)
      && |f.cols| >= |UserColumns| && Names(f.cols)[..|UserColumns|] == UserColumns
  {
    var m := Merged(users, events, hasTypeColumn, hasSessionColumn);
    MergedWellFormed(users, events, hasTypeColumn, hasSessionColumn);
    FillAllFacts(AddEngagement(AddRatios(m, RatioPairs)));
    UserColumnsFirst(users, events, hasTypeColumn, hasSessionColumn);
  }

  /** The output starts with the seven user columns, in order. */
  lemma UserColumnsFirst(users: seq<User>, events: seq<Event>, hasTypeColumn: bool, hasSessionColumn: bool)
    ensures var f := Features(users, events, hasTypeColumn, hasSessionColumn);
      |f.cols| >= |UserColumns| && Names(f.cols)[..|UserColumns|] == UserColumns
  {
    var m := Merged(users, events, hasTypeColumn, hasSessionColumn);
    MergedWellFormed(users, events, hasTypeColumn, hasSessionColumn);
    MergedNamesAre(users, events, hasTypeColumn, hasSessionColumn);
    FinishKeepsUserColumns(m);
  }

  lemma FinishKeepsUserColumns(m: Table)
    requires WellFormed(m) && |m.cols| >= |UserColumns| && Names(m.cols)[..|UserColumns|] == UserColumns
    ensures |Finish(m).cols| >= |UserColumns| && Names(Finish(m).cols)[..|UserColumns|] == UserColumns
  {
    FinishNamesPrefix(m);
    var ns := Names(Finish(m).cols);
    assert ns[..|UserColumns|] == ns[..|m.cols|][..|UserColumns|];
  }

  // ---------------------------------------------------------------------
  // Column names

  ghost predicate Distinct(ns: seq<string>)
  {
    forall i, j :: 0 <= i < j < |ns| ==> ns[i] != ns[j]
  }

  predicate EvPrefixed(n: string) { |n| >= 3 && n[0] == 'e' && n[1] == 'v' && n[2] == '_' }

  /** Names the ratio and score steps create. */
  predicate Derived(n: string)
  {
    (|n| >= 6 && n[0] == 'r' && n[1] == 'a' && n[2] == 't' && n[3] == 'i' && n[4] == 'o' && n[5] == '_')
    || n == EngagementName
  }

  /** The columns a part adds to the merged table: none when the part is empty. */
  function Joined(ids: seq<Id>, p: Part): seq<Column>
  {
    if p.keys == {} then [] else MergedColumns(ids, p.cols)
  }

  /** The names a part contributes to the merged table. */
  function JoinedNames(p: Part): seq<string>
  {
    if p.keys == {} then [] else seq(|p.cols|, j requires 0 <= j < |p.cols| => p.cols[j].name)
  }

  function PivotNames(events: seq<Event>): (ns: seq<string>)
    ensures |ns| == |PivotTypes(events)|
    ensures forall j :: 0 <= j < |ns| ==> ns[j] == EvName(PivotTypes(events)[j])
  {
    var types := PivotTypes(events);
    seq(|types|, j requires 0 <= j < |types| => EvName(types[j]))
  }

  /**
   * Column names after the merge: the user columns, the first part's names,
   * then `active_days`, then `sessions` and `avg_events_per_session`.
   */
  function AggregateNames(first: seq<string>, active: bool, sessions: bool): seq<string>
  {
    UserColumns + first + (if active then [ActiveDaysName] else []) + (if sessions then [SessionsName, AvgName] else [])
  }

  /**
   * The merged table's column names: the user columns, then one `ev_<type>`
   * per event type in sorted order (or `ev_count`), then `active_days`, then
   * `sessions` and `avg_events_per_session`, each part only when it has rows.
   */
  function MergedNames(events: seq<Event>, hasTypeColumn: bool, hasSessionColumn: bool): seq<string>
  {
    var ps := Parts(events, hasTypeColumn, hasSessionColumn);
    AggregateNames(if ps[0].keys == {} then [] else if hasTypeColumn then PivotNames(events) else [CountName],
      ps[1].keys != {}, ps[2].keys != {})
  }

  lemma MergeAllStep(t: Table, ids: seq<Id>, parts: seq<Part>)
    requires parts != []
    ensures MergeAll(t, ids, parts) == MergeAll(Table(t.cols + Joined(ids, parts[0]), t.height), ids, parts[1..])
  {
    assert t.cols + [] == t.cols;
  }

  lemma MergeAllAppends(t: Table, ids: seq<Id>, p0: Part, p1: Part, p2: Part)
    ensures MergeAll(t, ids, [p0, p1, p2]) ==
      Table(t.cols + Joined(ids, p0) + Joined(ids, p1) + Joined(ids, p2), t.height)
  {
    var t1 := Table(t.cols + Joined(ids, p0), t.height);
    var t2 := Table(t1.cols + Joined(ids, p1), t.height);
    var t3 := Table(t2.cols + Joined(ids, p2), t.height);
    MergeAllStep(t, ids, [p0, p1, p2]);
    assert [p0, p1, p2][1..] == [p1, p2];
    MergeAllStep(t1, ids, [p1, p2]);
    assert [p1, p2][1..] == [p2];
    MergeAllStep(t2, ids, [p2]);
    assert [p2][1..] == [];
  }

  /** The merged table is the user columns followed by each non-empty part's columns. */
  lemma MergedColumnsAre(users: seq<User>, events: seq<Event>, hasTypeColumn: bool, hasSessionColumn: bool)
    ensures var ps := Parts(events, hasTypeColumn, hasSessionColumn);
      Merged(users, events, hasTypeColumn, hasSessionColumn) ==
      Table(UserTable(users).cols + Joined(Ids(users), ps[0]) + Joined(Ids(users), ps[1]) + Joined(Ids(users), ps[2]), |users|)
  {
    var ps := Parts(events, hasTypeColumn, hasSessionColumn);
    MergeAllAppends(UserTable(users), Ids(users), ps[0], ps[1], ps[2]);
  }

  lemma NamesOfJoined(u: seq<Column>, ids: seq<Id>, p0: Part, p1: Part, p2: Part)
    ensures Names(u + Joined(ids, p0) + Joined(ids, p1) + Joined(ids, p2))
      == Names(u) + JoinedNames(p0) + JoinedNames(p1) + JoinedNames(p2)
  {
    NamesAppend(u + Joined(ids, p0) + Joined(ids, p1), Joined(ids, p2));
    NamesAppend(u + Joined(ids, p0), Joined(ids, p1));
    NamesAppend(u, Joined(ids, p0));
  }

  lemma PartsNames(events: seq<Event>, hasTypeColumn: bool, hasSessionColumn: bool)
    ensures var ps := Parts(events, hasTypeColumn, hasSessionColumn);
      && JoinedNames(ps[0]) == (if ps[0].keys == {} then [] else if hasTypeColumn then PivotNames(events) else [CountName])
      && JoinedNames(ps[1]) == (if ps[1].keys == {} then [] else [ActiveDaysName])
      && JoinedNames(ps[2]) == (if ps[2].keys == {} then [] else [SessionsName, AvgName])
  {
  }

  lemma MergedNamesAre(users: seq<User>, events: seq<Event>, hasTypeColumn: bool, hasSessionColumn: bool)
    ensures Names(Merged(users, events, hasTypeColumn, hasSessionColumn).cols) == MergedNames(events, hasTypeColumn, hasSessionColumn)
  {
    var ps := Parts(events, hasTypeColumn, hasSessionColumn);
    MergedColumnsAre(users, events, hasTypeColumn, hasSessionColumn);
    NamesOfJoined(UserTable(users).cols, Ids(users), ps[0], ps[1], ps[2]);
    PartsNames(events, hasTypeColumn, hasSessionColumn);
  }

  lemma DistinctConcat(a: seq<string>, b: seq<string>)
    requires Distinct(a) && Distinct(b)
    requires forall x :: x in a ==> x !in b
    ensures Distinct(a + b)
  {
    forall i, j | 0 <= i < j < |a + b| ensures (a + b)[i] != (a + b)[j] {
      if i < |a| && j >= |a| {
        assert (a + b)[i] in a && (a + b)[j] == b[j - |a|];
      }
    }
  }

  lemma EvNameFacts(t: string)
    ensures EvPrefixed(EvName(t)) && EvName(t)[3..] == t
    ensures !Derived(EvName(t))
  {
    var n := EvName(t);
    assert n[0] == 'e' && n[1] == 'v' && n[2] == '_';
    assert EngagementName[1] == 'n';
  }

  /** The fixed names: none has the `ev_` prefix and none is a derived name. */
  lemma FixedNames()
    ensures Distinct(UserColumns)
    ensures forall x :: x in UserColumns + [ActiveDaysName, SessionsName, AvgName] ==> !EvPrefixed(x) && !Derived(x)
    ensures EvPrefixed(CountName) && !Derived(CountName)
    ensures ActiveDaysName !in UserColumns && SessionsName !in UserColumns && AvgName !in UserColumns
    ensures ActiveDaysName != SessionsName && ActiveDaysName != AvgName && SessionsName != AvgName
  {
    assert EngagementName[0] == 'e' && EngagementName[1] == 'n';
    assert CountName[0] == 'e' && CountName[1] == 'v' && CountName[2] == '_';
    var fixed := UserColumns + [ActiveDaysName, SessionsName, AvgName];
    assert fixed[0][0] == 'u' && fixed[1][0] == 's' && fixed[2][0] == 'l' && fixed[3][0] == 'c';
    assert fixed[4][0] == 'd' && fixed[5][0] == 'l' && fixed[6][0] == 's' && fixed[7][0] == 'a';
    assert fixed[8][0] == 's' && fixed[9][0] == 'a';
    assert |UserColumns[0]| == 7 && |UserColumns[1]| == 11 && |UserColumns[2]| == 16 && |UserColumns[3]| == 7;
    assert |UserColumns[4]| == 6 && |UserColumns[5]| == 8 && |UserColumns[6]| == 17;
    assert UserColumns[0][1] == 's' && UserColumns[3][1] == 'o';
    assert UserColumns[1][1] == 'i' && UserColumns[6][1] == 'u';
    assert |SessionsName| == 8 && |ActiveDaysName| == 11 && |AvgName| == 22;
  }

  /** User columns, `ev_` columns and the fixed aggregate names never clash. */
  lemma JoinDistinct(u: seq<string>, n1: seq<string>, n2: seq<string>, n3: seq<string>)
    requires Distinct(u) && Distinct(n1) && Distinct(n2) && Distinct(n3)
    requires forall x :: x in n1 ==> EvPrefixed(x)
    requires forall x :: x in u || x in n2 || x in n3 ==> !EvPrefixed(x)
    requires forall x :: x in n2 ==> x !in u && x !in n3
    requires forall x :: x in n3 ==> x !in u
    requires forall x :: x in u || x in n1 || x in n2 || x in n3 ==> !Derived(x)
    ensures Distinct(u + n1 + n2 + n3)
    ensures forall x :: x in u + n1 + n2 + n3 ==> !Derived(x)
  {
    DistinctConcat(u, n1);
    DistinctConcat(u + n1, n2);
    DistinctConcat(u + n1 + n2, n3);
  }

  lemma AggregateNamesDistinct(first: seq<string>, active: bool, sessions: bool)
    requires Distinct(first)
    requires forall x :: x in first ==> EvPrefixed(x) && !Derived(x)
    ensures Distinct(AggregateNames(first, active, sessions))
    ensures forall x :: x in AggregateNames(first, active, sessions) ==> !Derived(x)
  {
    FixedNames();
    var n2: seq<string> := if active then [ActiveDaysName] else [];
    var n3: seq<string> := if sessions then [SessionsName, AvgName] else [];
    JoinDistinct(UserColumns, first, n2, n3);
  }

  /** The pivot's names are distinct `ev_` names. */
  lemma PivotNamesFacts(events: seq<Event>)
    ensures Distinct(PivotNames(events))
    ensures forall x :: x in PivotNames(events) ==> EvPrefixed(x) && !Derived(x)
  {
    var types := PivotTypes(events);
    var ns := PivotNames(events);
    forall j | 0 <= j < |types| ensures EvPrefixed(ns[j]) && ns[j][3..] == types[j] && !Derived(ns[j]) {
      EvNameFacts(types[j]);
    }
  }

  lemma MergedNamesDistinct(events: seq<Event>, hasTypeColumn: bool, hasSessionColumn: bool)
    ensures Distinct(MergedNames(events, hasTypeColumn, hasSessionColumn))
    ensures forall x :: x in MergedNames(events, hasTypeColumn, hasSessionColumn) ==> !Derived(x)
  {
    var ps := Parts(events, hasTypeColumn, hasSessionColumn);
    var n1 := if ps[0].keys == {} then [] else if hasTypeColumn then PivotNames(events) else [CountName];
    FixedNames();
    PivotNamesFacts(events);
    AggregateNamesDistinct(n1, ps[1].keys != {}, ps[2].keys != {});
  }

  /** Every column a part adds is as long as the user list. */
  lemma JoinedLengths(ids: seq<Id>, p: Part)
    ensures forall c :: c in Joined(ids, p) ==> |c.cells| == |ids|
  {
  }

  /** The merged table is rectangular, one row per user. */
  lemma MergedRectangular(users: seq<User>, events: seq<Event>, hasTypeColumn: bool, hasSessionColumn: bool)
    ensures var m := Merged(users, events, hasTypeColumn, hasSessionColumn);
      && m.height == |users|
      && forall i :: 0 <= i < |m.cols| ==> |m.cols[i].cells| == m.height
  {
    var ps := Parts(events, hasTypeColumn, hasSessionColumn);
    var ids := Ids(users);
    var m := Merged(users, events, hasTypeColumn, hasSessionColumn);
    MergedColumnsAre(users, events, hasTypeColumn, hasSessionColumn);
    JoinedLengths(ids, ps[0]);
    JoinedLengths(ids, ps[1]);
    JoinedLengths(ids, ps[2]);
    var u := UserTable(users);
    assert forall i :: 0 <= i < |u.cols| ==> |u.cols[i].cells| == |users|;
    forall i | 0 <= i < |m.cols| ensures |m.cols[i].cells| == |users| {
      assert m.cols[i] in u.cols + Joined(ids, ps[0]) + Joined(ids, ps[1]) + Joined(ids, ps[2]);
    }
  }

  lemma MergedWellFormed(users: seq<User>, events: seq<Event>, hasTypeColumn: bool, hasSessionColumn: bool)
    ensures WellFormed(Merged(users, events, hasTypeColumn, hasSessionColumn))
    ensures Merged(users, events, hasTypeColumn, hasSessionColumn).height == |users|
    ensures forall x :: x in Names(Merged(users, events, hasTypeColumn, hasSessionColumn).cols) ==> !Derived(x)
  {
    var m := Merged(users, events, hasTypeColumn, hasSessionColumn);
    MergedRectangular(users, events, hasTypeColumn, hasSessionColumn);
    MergedNamesAre(users, events, hasTypeColumn, hasSessionColumn);
    MergedNamesDistinct(events, hasTypeColumn, hasSessionColumn);
    forall i, j | 0 <= i < j < |m.cols| ensures m.cols[i].name != m.cols[j].name {
      assert Names(m.cols)[i] == m.cols[i].name && Names(m.cols)[j] == m.cols[j].name;
    }
  }


  // ---------------------------------------------------------------------
  // The later steps

  lemma RatioNameDerived(a: string, b: string)
    ensures Derived(RatioName(a, b)) && RatioName(a, b) != EngagementName
  {
    var n := RatioName(a, b);
    assert n[0] == 'r' && n[1] == 'a' && n[2] == 't' && n[3] == 'i' && n[4] == 'o' && n[5] == '_';
    assert EngagementName[0] == 'e';
  }

  /** The ratio pairs name plain columns and give three different ratio names. */
  lemma RatioPairsFacts()
    ensures forall k :: 0 <= k < |RatioPairs| ==> !Derived(RatioPairs[k].0) && !Derived(RatioPairs[k].1)
    ensures forall k, k' :: 0 <= k < k' < |RatioPairs| ==>
      RatioName(RatioPairs[k].0, RatioPairs[k].1) != RatioName(RatioPairs[k'].0, RatioPairs[k'].1)
    ensures forall k :: 0 <= k < |Components| ==> !Derived(Components[k])
  {
    RatioOperandsPlain();
    RatioNamesDiffer();
    ComponentsPlain();
  }

  lemma RatioOperandsPlain()
    ensures forall k :: 0 <= k < |RatioPairs| ==> !Derived(RatioPairs[k].0) && !Derived(RatioPairs[k].1)
  {
    EvNameFacts("play");
    EvNameFacts("open");
    EvNameFacts("pause");
    EvNameFacts("next");
    assert RatioPairs[0].0 == EvName("play") && RatioPairs[0].1 == EvName("open");
    assert RatioPairs[1].0 == EvName("pause") && RatioPairs[1].1 == EvName("play");
    assert RatioPairs[2].0 == EvName("next") && RatioPairs[2].1 == EvName("play");
  }

  lemma RatioNamesDiffer()
    ensures forall k, k' :: 0 <= k < k' < |RatioPairs| ==>
      RatioName(RatioPairs[k].0, RatioPairs[k].1) != RatioName(RatioPairs[k'].0, RatioPairs[k'].1)
  {
    var r0 := RatioName(RatioPairs[0].0, RatioPairs[0].1);
    var r1 := RatioName(RatioPairs[1].0, RatioPairs[1].1);
    var r2 := RatioName(RatioPairs[2].0, RatioPairs[2].1);
    assert r0[9] == 'p' && r0[10] == 'l' && r1[9] == 'p' && r1[10] == 'a' && r2[9] == 'n';
  }

  lemma ComponentsPlain()
    ensures forall k :: 0 <= k < |Components| ==> !Derived(Components[k])
  {
    EvNameFacts("play");
    EvNameFacts("pause");
    EvNameFacts("next");
    assert Components[0] == EvName("play") && Components[1] == EvName("pause") && Components[2] == EvName("next");
    FixedNames();
  }


  /** A ratio step leaves every column of another name as it was. */
  lemma {:induction false} AddRatiosKeeps(t: Table, pairs: seq<(string, string)>, n: string)
    requires WellFormed(t)
    requires forall k :: 0 <= k < |pairs| ==> RatioName(pairs[k].0, pairs[k].1) != n
    ensures HasColumn(AddRatios(t, pairs), n) <==> HasColumn(t, n)
    ensures HasColumn(t, n) ==> Get(AddRatios(t, pairs), n) == Get(t, n)
    decreases |pairs|
  {
    if pairs != [] {
      var a, b := pairs[0].0, pairs[0].1;
      if HasColumn(t, a) && HasColumn(t, b) {
        AssignKeepsOthers(t, RatioColumn(t, a, b), n);
      }
      AddRatiosKeeps(AddRatio(t, a, b), pairs[1..], n);
    }
  }

  /** One ratio step keeps every column of another name. */
  lemma AddRatioKeeps(t: Table, a: string, b: string, n: string)
    requires WellFormed(t) && n != RatioName(a, b)
    ensures HasColumn(AddRatio(t, a, b), n) <==> HasColumn(t, n)
    ensures HasColumn(t, n) ==> Get(AddRatio(t, a, b), n) == Get(t, n)
  {
    if HasColumn(t, a) && HasColumn(t, b) {
      AssignKeepsOthers(t, RatioColumn(t, a, b), n);
    }
  }

  /** The first ratio step leaves the remaining pairs with no ratio column yet. */
  lemma AddRatioFirst(t: Table, pairs: seq<(string, string)>)
    requires WellFormed(t) && pairs != []
    requires forall j :: 0 <= j < |pairs| ==> !HasColumn(t, RatioName(pairs[j].0, pairs[j].1))
    requires forall j, j' :: 0 <= j < j' < |pairs| ==> RatioName(pairs[j].0, pairs[j].1) != RatioName(pairs[j'].0, pairs[j'].1)
    ensures var rest := pairs[1..];
      forall j :: 0 <= j < |rest| ==> !HasColumn(AddRatio(t, pairs[0].0, pairs[0].1), RatioName(rest[j].0, rest[j].1))
  {
    var rest := pairs[1..];
    forall j | 0 <= j < |rest| ensures !HasColumn(AddRatio(t, pairs[0].0, pairs[0].1), RatioName(rest[j].0, rest[j].1)) {
      assert rest[j] == pairs[j + 1];
      AddRatioKeeps(t, pairs[0].0, pairs[0].1, RatioName(rest[j].0, rest[j].1));
    }
  }

  /** The first pair's ratio column survives the rest of the loop. */
  lemma AddRatiosGetFirst(t: Table, pairs: seq<(string, string)>)
    requires WellFormed(t) && pairs != [] && !HasColumn(t, RatioName(pairs[0].0, pairs[0].1))
    requires forall j, j' :: 0 <= j < j' < |pairs| ==> RatioName(pairs[j].0, pairs[j].1) != RatioName(pairs[j'].0, pairs[j'].1)
    ensures var a, b := pairs[0].0, pairs[0].1; var r := AddRatios(t, pairs);
      && (HasColumn(r, RatioName(a, b)) <==> HasColumn(t, a) && HasColumn(t, b))
      && (HasColumn(t, a) && HasColumn(t, b) ==> Get(r, RatioName(a, b)) == RatioColumn(t, a, b))
  {
    var a0, b0 := pairs[0].0, pairs[0].1;
    var t1 := AddRatio(t, a0, b0);
    var n0 := RatioName(a0, b0);
    var rest := pairs[1..];
    forall j | 0 <= j < |rest| ensures RatioName(rest[j].0, rest[j].1) != n0 {
      assert rest[j] == pairs[j + 1];
    }
    AddRatiosKeeps(t1, rest, n0);
    if HasColumn(t, a0) && HasColumn(t, b0) {
      AssignGet(t, RatioColumn(t, a0, b0));
    }
  }

  /**
   * The k-th ratio column exists exactly when both of its columns existed
   * before the loop, and is their row-wise zero-safe quotient.
   */
  lemma {:induction false} AddRatiosGet(t: Table, pairs: seq<(string, string)>, k: nat)
    requires WellFormed(t) && k < |pairs|
    requires forall j :: 0 <= j < |pairs| ==> !HasColumn(t, RatioName(pairs[j].0, pairs[j].1))
    requires forall j :: 0 <= j < |pairs| ==> !Derived(pairs[j].0) && !Derived(pairs[j].1)
    requires forall j, j' :: 0 <= j < j' < |pairs| ==> RatioName(pairs[j].0, pairs[j].1) != RatioName(pairs[j'].0, pairs[j'].1)
    ensures var a, b := pairs[k].0, pairs[k].1; var r := AddRatios(t, pairs);
      && (HasColumn(r, RatioName(a, b)) <==> HasColumn(t, a) && HasColumn(t, b))
      && (HasColumn(t, a) && HasColumn(t, b) ==> Get(r, RatioName(a, b)) == RatioColumn(t, a, b))
    decreases k
  {
    if k == 0 {
      AddRatiosGetFirst(t, pairs);
    } else {
      var a0, b0 := pairs[0].0, pairs[0].1;
      var t1 := AddRatio(t, a0, b0);
      var rest := pairs[1..];
      var a, b := pairs[k].0, pairs[k].1;
      RatioNameDerived(a0, b0);
      AddRatioKeeps(t, a0, b0, a);
      AddRatioKeeps(t, a0, b0, b);
      AddRatioFirst(t, pairs);
      assert rest[k - 1] == pairs[k];
      assert forall j :: 0 <= j < |rest| ==> rest[j] == pairs[j + 1];
      AddRatiosGet(t1, rest, k - 1);
      if HasColumn(t, a) && HasColumn(t, b) {
        assert RatioColumn(t1, a, b) == RatioColumn(t, a, b);
      }
    }
  }

  lemma FillGet(t: Table, n: string)
    requires WellFormed(t)
    ensures HasColumn(FillAll(t), n) <==> HasColumn(t, n)
    ensures HasColumn(t, n) ==> Get(FillAll(t), n) == FillColumn(Get(t, n))
  {
    FillAllFacts(t);
    if HasColumn(t, n) {
      GetOfMember(FillAll(t), IndexOf(t.cols, n));
    }
  }

  /** Filling leaves a numeric column without nulls as it is. */
  lemma FillNoNulls(c: Column)
    requires IsNumeric(c.dtype) && forall i :: 0 <= i < |c.cells| ==> c.cells[i] != Null
    ensures FillColumn(c) == c
  {
  }

  /** Scoring and filling leave a column other than the score filled. */
  lemma ScoreAndFillKeeps(t: Table, n: string)
    requires WellFormed(t) && n != EngagementName
    ensures HasColumn(ScoreAndFill(t), n) <==> HasColumn(t, n)
    ensures HasColumn(t, n) ==> Get(ScoreAndFill(t), n) == FillColumn(Get(t, n))
  {
    if AnyComponent(t) {
      AssignKeepsOthers(t, EngagementColumn(t), n);
    }
    FillGet(AddEngagement(t), n);
  }

  /** After the merge, a plain column only gets filled. */
  lemma FinishKeeps(m: Table, n: string)
    requires WellFormed(m) && !Derived(n)
    ensures HasColumn(Finish(m), n) <==> HasColumn(m, n)
    ensures HasColumn(m, n) ==> Get(Finish(m), n) == FillColumn(Get(m, n))
  {
    forall k | 0 <= k < |RatioPairs| ensures RatioName(RatioPairs[k].0, RatioPairs[k].1) != n {
      RatioNameDerived(RatioPairs[k].0, RatioPairs[k].1);
    }
    AddRatiosKeeps(m, RatioPairs, n);
    ScoreAndFillKeeps(AddRatios(m, RatioPairs), n);
  }

  /** One cell of a plain numeric column after the merge: a null becomes 0. */
  lemma FinishCell(m: Table, n: string, i: nat)
    requires WellFormed(m) && !Derived(n) && HasColumn(m, n)
    requires IsNumeric(Get(m, n).dtype) && i < |Get(m, n).cells|
    ensures HasColumn(Finish(m), n) && |Get(Finish(m), n).cells| == |Get(m, n).cells|
    ensures Get(Finish(m), n).cells[i] == if Get(m, n).cells[i] == Null then Num(0.0) else Get(m, n).cells[i]
  {
    FinishKeeps(m, n);
  }

  lemma {:induction false} RatiosThenScore(m: Table, pairs: seq<(string, string)>, k: nat)
    requires WellFormed(m) && k < |pairs|
    requires forall x :: x in Names(m.cols) ==> !Derived(x)
    requires forall j :: 0 <= j < |pairs| ==> !Derived(pairs[j].0) && !Derived(pairs[j].1)
    requires forall j, j' :: 0 <= j < j' < |pairs| ==> RatioName(pairs[j].0, pairs[j].1) != RatioName(pairs[j'].0, pairs[j'].1)
    ensures var a, b := pairs[k].0, pairs[k].1; var f := ScoreAndFill(AddRatios(m, pairs));
      && (HasColumn(f, RatioName(a, b)) <==> HasColumn(m, a) && HasColumn(m, b))
      && (HasColumn(m, a) && HasColumn(m, b) ==> Get(f, RatioName(a, b)) == RatioColumn(m, a, b))
  {
    var a, b := pairs[k].0, pairs[k].1;
    forall j | 0 <= j < |pairs| ensures !HasColumn(m, RatioName(pairs[j].0, pairs[j].1)) {
      RatioNameDerived(pairs[j].0, pairs[j].1);
    }
    AddRatiosGet(m, pairs, k);
    RatioNameDerived(a, b);
    ScoreAndFillKeepsFilled(AddRatios(m, pairs), RatioName(a, b));
  }

  /** A column with no nulls comes through the score and fill steps unchanged. */
  lemma ScoreAndFillKeepsFilled(t: Table, n: string)
    requires WellFormed(t) && n != EngagementName
    requires HasColumn(t, n) ==> IsNumeric(Get(t, n).dtype) && forall i :: 0 <= i < |Get(t, n).cells| ==> Get(t, n).cells[i] != Null
    ensures HasColumn(ScoreAndFill(t), n) <==> HasColumn(t, n)
    ensures HasColumn(t, n) ==> Get(ScoreAndFill(t), n) == Get(t, n)
  {
    ScoreAndFillKeeps(t, n);
    if HasColumn(t, n) {
      FillNoNulls(Get(t, n));
    }
  }

  /**
   * The three ratio columns: present exactly when both operands were merged,
   * holding `a / b`, or 0 where `b` is null or zero or `a` is null.
   */
  lemma FinishRatio(m: Table, k: nat)
    requires WellFormed(m) && k < |RatioPairs|
    requires forall x :: x in Names(m.cols) ==> !Derived(x)
    ensures var a, b := RatioPairs[k].0, RatioPairs[k].1; var f := Finish(m);
      && (HasColumn(f, RatioName(a, b)) <==> HasColumn(m, a) && HasColumn(m, b))
      && (HasColumn(m, a) && HasColumn(m, b) ==> forall i :: 0 <= i < m.height ==>
            Get(f, RatioName(a, b)).cells[i] == RatioCell(Get(m, a).cells[i], Get(m, b).cells[i]))
  {
    RatioPairsFacts();
    RatiosThenScore(m, RatioPairs, k);
  }

  /** The ratio loop changes no plain column, so the score sees the merged components. */
  lemma {:induction false} RatiosKeepScore(m: Table, pairs: seq<(string, string)>)
    requires WellFormed(m)
    requires forall x :: x in Names(m.cols) ==> !Derived(x)
    requires forall k :: 0 <= k < |Components| ==> !Derived(Components[k])
    ensures var r := AddRatios(m, pairs);
      && !HasColumn(r, EngagementName)
      && (AnyComponent(r) <==> AnyComponent(m))
      && forall i :: 0 <= i < m.height ==> Score(r, i) == Score(m, i)
  {
    var r := AddRatios(m, pairs);
    forall n | !Derived(n) ensures (HasColumn(r, n) <==> HasColumn(m, n)) && (HasColumn(m, n) ==> Get(r, n) == Get(m, n)) {
      forall k | 0 <= k < |pairs| ensures RatioName(pairs[k].0, pairs[k].1) != n {
        RatioNameDerived(pairs[k].0, pairs[k].1);
      }
      AddRatiosKeeps(m, pairs, n);
    }
    forall k | 0 <= k < |pairs| ensures RatioName(pairs[k].0, pairs[k].1) != EngagementName {
      RatioNameDerived(pairs[k].0, pairs[k].1);
    }
    AddRatiosKeeps(m, pairs, EngagementName);
    assert !Derived(Components[0]) && !Derived(Components[1]) && !Derived(Components[2]);
    assert !Derived(Components[3]) && !Derived(Components[4]);
  }

  /**
   * The score column: present exactly when some component was merged, and
   * the weighted sum of the merged components, a missing one or a null
   * counting as 0.
   */
  lemma FinishEngagement(m: Table)
    requires WellFormed(m)
    requires forall x :: x in Names(m.cols) ==> !Derived(x)
    ensures HasColumn(Finish(m), EngagementName) <==> AnyComponent(m)
    ensures AnyComponent(m) ==> forall i :: 0 <= i < m.height ==>
      Get(Finish(m), EngagementName).cells[i] == Num(Score(m, i))
  {
    RatioPairsFacts();
    RatiosKeepScore(m, RatioPairs);
    var r := AddRatios(m, RatioPairs);
    FillGet(AddEngagement(r), EngagementName);
    if AnyComponent(r) {
      var c := EngagementColumn(r);
      AssignGet(r, c);
      FillNoNulls(c);
    }
  }

  // ---------------------------------------------------------------------
  // The merged aggregates

  /** A column of a non-empty part reaches the merged table under its own name. */
  lemma MergedPartColumn(users: seq<User>, events: seq<Event>, hasTypeColumn: bool, hasSessionColumn: bool, q: nat, j: nat)
    requires q < 3
    requires Parts(events, hasTypeColumn, hasSessionColumn)[q].keys != {}
    requires j < |Parts(events, hasTypeColumn, hasSessionColumn)[q].cols|
    ensures var m := Merged(users, events, hasTypeColumn, hasSessionColumn);
      var pc := Parts(events, hasTypeColumn, hasSessionColumn)[q].cols[j];
      HasColumn(m, pc.name) && Get(m, pc.name) == MergedColumn(Ids(users), pc)
  {
    var ps := Parts(events, hasTypeColumn, hasSessionColumn);
    var ids := Ids(users);
    var m := Merged(users, events, hasTypeColumn, hasSessionColumn);
    MergedColumnsAre(users, events, hasTypeColumn, hasSessionColumn);
    MergedWellFormed(users, events, hasTypeColumn, hasSessionColumn);
    var c := MergedColumn(ids, ps[q].cols[j]);
    assert c in Joined(ids, ps[q]) by {
      assert Joined(ids, ps[q])[j] == c;
    }
    if q == 0 {
      assert c in m.cols;
    } else if q == 1 {
      assert c in m.cols;
    } else {
      assert c in m.cols;
    }
    GetOfIn(m, c);
  }

  lemma {:induction false} TypeCountNone(events: seq<Event>, id: Id, t: string)
    requires forall e :: e in events ==> !(e.userId == Some(id) && e.eventType == Some(t))
    ensures TypeCount(events, id, t) == 0
  {
    if events != [] {
      assert forall e :: e in events[1..] ==> e in events;
      TypeCountNone(events[1..], id, t);
    }
  }

  lemma {:induction false} EventsOfNone(events: seq<Event>, id: Id)
    requires forall e :: e in events ==> e.userId != Some(id)
    ensures EventsOf(events, id) == 0
  {
    if events != [] {
      assert forall e :: e in events[1..] ==> e in events;
      EventsOfNone(events[1..], id);
    }
  }

  /**
   * With an `event_type` column, `ev_<t>` is merged for each type some event
   * of a known user has: the user's events of that type with a uuid, null for
   * a user without typed events.
   */
  lemma MergedTypeColumn(users: seq<User>, events: seq<Event>, hasSessionColumn: bool, t: string)
    requires exists e :: e in events && e.userId.Some? && e.eventType == Some(t)
    ensures var m := Merged(users, events, true, hasSessionColumn);
      && HasColumn(m, EvName(t)) && IsNumeric(Get(m, EvName(t)).dtype) && |Get(m, EvName(t)).cells| == |users|
      && (forall i :: 0 <= i < |users| ==> (Get(m, EvName(t)).cells[i] ==
           if users[i].userId in PivotKeys(events) then Num(TypeCount(events, users[i].userId, t) as real) else Null))
  {
    var types := PivotTypes(events);
    assert t in types;
    var j :| 0 <= j < |types| && types[j] == t;
    var e :| e in events && e.userId.Some? && e.eventType == Some(t);
    assert e.userId.value in PivotKeys(events);
    MergedPartColumn(users, events, true, hasSessionColumn, 0, j);
    var pc := Pivot(events).cols[j];
    MergedColumnNumeric(Ids(users), pc);
    forall i | 0 <= i < |users|
      ensures MergedColumn(Ids(users), pc).cells[i] ==
        if users[i].userId in PivotKeys(events) then Num(TypeCount(events, users[i].userId, t) as real) else Null
    {
      MergedColumnCell(Ids(users), pc, i);
    }
  }

  /** No `ev_<t>` column for a type no event of a known user has (nor any but `ev_count` without `event_type`). */
  lemma MergedLacksType(users: seq<User>, events: seq<Event>, hasTypeColumn: bool, hasSessionColumn: bool, t: string)
    requires hasTypeColumn ==> !exists e :: e in events && e.userId.Some? && e.eventType == Some(t)
    requires !hasTypeColumn ==> EvName(t) != CountName
    ensures !HasColumn(Merged(users, events, hasTypeColumn, hasSessionColumn), EvName(t))
  {
    MergedNamesAre(users, events, hasTypeColumn, hasSessionColumn);
    FixedNames();
    EvNameFacts(t);
    PivotNamesFacts(events);
  }

  /** Without an `event_type` column, `ev_count` holds each user's number of events, null for a user without any. */
  lemma MergedCountColumn(users: seq<User>, events: seq<Event>, hasSessionColumn: bool)
    requires exists e :: e in events && e.userId.Some?
    ensures var m := Merged(users, events, false, hasSessionColumn);
      && HasColumn(m, CountName) && IsNumeric(Get(m, CountName).dtype) && |Get(m, CountName).cells| == |users|
      && (forall i :: 0 <= i < |users| ==> (Get(m, CountName).cells[i] ==
           if exists e :: e in events && e.userId == Some(users[i].userId)
           then Num(EventsOf(events, users[i].userId) as real) else Null))
  {
    var e :| e in events && e.userId.Some?;
    var p := CountPart(events);
    assert e.userId.value in p.keys;
    MergedPartColumn(users, events, false, hasSessionColumn, 0, 0);
    var pc := p.cols[0];
    MergedColumnNumeric(Ids(users), pc);
    forall i | 0 <= i < |users|
      ensures MergedColumn(Ids(users), pc).cells[i] ==
        if exists e :: e in events && e.userId == Some(users[i].userId)
        then Num(EventsOf(events, users[i].userId) as real) else Null
    {
      MergedColumnCell(Ids(users), pc, i);
      assert users[i].userId in p.keys <==> exists e :: e in events && e.userId == Some(users[i].userId);
    }
  }

  /** Ids with a timestamped event. */
  function ActiveKeys(events: seq<Event>): set<Id>
  {
    ActiveDaysPart(events).keys
  }

  /**
   * `active_days` is merged exactly when some event of a known user has a
   * timestamp, and holds the number of distinct dates of the user's events.
   */
  lemma MergedActiveDays(users: seq<User>, events: seq<Event>, hasTypeColumn: bool, hasSessionColumn: bool)
    ensures var m := Merged(users, events, hasTypeColumn, hasSessionColumn);
      && (HasColumn(m, ActiveDaysName) <==> exists e :: e in events && e.userId.Some? && e.eventTimestamp.Some?)
      && (HasColumn(m, ActiveDaysName) ==>
            && IsNumeric(Get(m, ActiveDaysName).dtype) && |Get(m, ActiveDaysName).cells| == |users|
            && (forall i :: 0 <= i < |users| ==> (Get(m, ActiveDaysName).cells[i] ==
                 if users[i].userId in ActiveKeys(events) then Num(|DaysOf(events, users[i].userId)| as real) else Null)))
  {
    var p := ActiveDaysPart(events);
    MergedNamesAre(users, events, hasTypeColumn, hasSessionColumn);
    FixedNames();
    PivotNamesFacts(events);
    if exists e :: e in events && e.userId.Some? && e.eventTimestamp.Some? {
      var e :| e in events && e.userId.Some? && e.eventTimestamp.Some?;
      assert e.userId.value in p.keys;
      MergedPartColumn(users, events, hasTypeColumn, hasSessionColumn, 1, 0);
      var pc := p.cols[0];
      MergedColumnNumeric(Ids(users), pc);
      forall i | 0 <= i < |users|
        ensures MergedColumn(Ids(users), pc).cells[i] ==
          if users[i].userId in ActiveKeys(events) then Num(|DaysOf(events, users[i].userId)| as real) else Null
      {
        MergedColumnCell(Ids(users), pc, i);
      }
    } else {
      assert p.keys == {};
    }
  }

  /** Ids with an event carrying a session id (none without a `session_id` column). */
  function SessionKeys(events: seq<Event>, hasSessionColumn: bool): set<Id>
  {
    SessionsPart(events, hasSessionColumn).keys
  }

  /** The session columns are merged exactly when some event of a known user has a session id. */
  lemma MergedSessionsPresent(users: seq<User>, events: seq<Event>, hasTypeColumn: bool, hasSessionColumn: bool)
    ensures var m := Merged(users, events, hasTypeColumn, hasSessionColumn);
      && (HasColumn(m, SessionsName) <==> hasSessionColumn && HasSessionEvent(events))
      && (HasColumn(m, AvgName) <==> hasSessionColumn && HasSessionEvent(events))
  {
    var p := SessionsPart(events, hasSessionColumn);
    MergedNamesAre(users, events, hasTypeColumn, hasSessionColumn);
    FixedNames();
    PivotNamesFacts(events);
    if hasSessionColumn && HasSessionEvent(events) {
      var e :| e in events && e.userId.Some? && e.sessionId.Some?;
      assert e.userId.value in p.keys;
    } else {
      assert p.keys == {};
    }
  }

  /** A merged session column is the session part's column spread over the users. */
  lemma MergedSessionColumn(users: seq<User>, events: seq<Event>, hasTypeColumn: bool, hasSessionColumn: bool, j: nat)
    requires j < 2 && hasSessionColumn && HasSessionEvent(events)
    ensures var pc := SessionsPart(events, true).cols[j]; var m := Merged(users, events, hasTypeColumn, hasSessionColumn);
      && IsNumeric(pc.dtype) && pc.values.Keys == SessionKeys(events, true)
      && HasColumn(m, pc.name) && Get(m, pc.name) == MergedColumn(Ids(users), pc)
  {
    var e :| e in events && e.userId.Some? && e.sessionId.Some?;
    assert e.userId.value in SessionsPart(events, hasSessionColumn).keys;
    MergedPartColumn(users, events, hasTypeColumn, hasSessionColumn, 2, j);
  }

  /** A merged column holds the part's value for a matched user and null otherwise. */
  lemma MergedColumnCell(ids: seq<Id>, pc: PartColumn, i: nat)
    requires i < |ids|
    ensures MergedColumn(ids, pc).cells[i] == if ids[i] in pc.values then pc.values[ids[i]] else Null
  {
  }

  /** A numeric part column stays numeric when merged. */
  lemma MergedColumnNumeric(ids: seq<Id>, pc: PartColumn)
    requires IsNumeric(pc.dtype)
    ensures IsNumeric(MergedColumn(ids, pc).dtype)
  {
  }

  /** One user's merged session cells. */
  lemma MergedSessionCells(users: seq<User>, events: seq<Event>, hasTypeColumn: bool, hasSessionColumn: bool, i: nat)
    requires hasSessionColumn && HasSessionEvent(events) && i < |users|
    ensures var m := Merged(users, events, hasTypeColumn, hasSessionColumn);
      && HasColumn(m, SessionsName) && HasColumn(m, AvgName)
      && IsNumeric(Get(m, SessionsName).dtype) && IsNumeric(Get(m, AvgName).dtype)
      && |Get(m, SessionsName).cells| == |users| && |Get(m, AvgName).cells| == |users|
      && Get(m, SessionsName).cells[i] ==
           (if users[i].userId in SessionKeys(events, true) then Num(|SessionsOf(events, users[i].userId)| as real) else Null)
      && Get(m, AvgName).cells[i] ==
           (if users[i].userId in SessionKeys(events, true) then Num(AvgPerSession(events, users[i].userId)) else Null)
  {
    MergedSessions(users, events, hasTypeColumn, hasSessionColumn);
  }

  /**
   * `sessions` and `avg_events_per_session` are merged exactly when there is
   * a `session_id` column and some event of a known user has one; they hold
   * the user's distinct sessions and events per session.
   */
  lemma MergedSessions(users: seq<User>, events: seq<Event>, hasTypeColumn: bool, hasSessionColumn: bool)
    ensures var m := Merged(users, events, hasTypeColumn, hasSessionColumn);
      && (HasColumn(m, SessionsName) <==> hasSessionColumn && HasSessionEvent(events))
      && (HasColumn(m, AvgName) <==> HasColumn(m, SessionsName))
      && (HasColumn(m, SessionsName) ==>
            && IsNumeric(Get(m, SessionsName).dtype) && IsNumeric(Get(m, AvgName).dtype)
            && |Get(m, SessionsName).cells| == |users| && |Get(m, AvgName).cells| == |users|
            && (forall i :: 0 <= i < |users| ==>
                 && Get(m, SessionsName).cells[i] ==
                      (if users[i].userId in SessionKeys(events, true) then Num(|SessionsOf(events, users[i].userId)| as real) else Null)
                 && Get(m, AvgName).cells[i] ==
                      (if users[i].userId in SessionKeys(events, true) then Num(AvgPerSession(events, users[i].userId)) else Null)))
  {
    MergedSessionsPresent(users, events, hasTypeColumn, hasSessionColumn);
    if hasSessionColumn && HasSessionEvent(events) {
      var ids := Ids(users);
      var p := SessionsPart(events, true);
      MergedSessionColumn(users, events, hasTypeColumn, hasSessionColumn, 0);
      MergedSessionColumn(users, events, hasTypeColumn, hasSessionColumn, 1);
      forall i | 0 <= i < |users|
        ensures MergedColumn(ids, p.cols[0]).cells[i] ==
          (if users[i].userId in SessionKeys(events, true) then Num(|SessionsOf(events, users[i].userId)| as real) else Null)
        ensures MergedColumn(ids, p.cols[1]).cells[i] ==
          (if users[i].userId in SessionKeys(events, true) then Num(AvgPerSession(events, users[i].userId)) else Null)
      {
        MergedColumnCell(ids, p.cols[0], i);
        MergedColumnCell(ids, p.cols[1], i);
      }
      MergedColumnNumeric(ids, p.cols[0]);
      MergedColumnNumeric(ids, p.cols[1]);
    }
  }

  // ---------------------------------------------------------------------
  // The written table, user by user

  /** Some event of a known user has type `t`. */
  predicate HasTypedEvent(events: seq<Event>, t: string)
  {
    exists e :: e in events && e.userId.Some? && e.eventType == Some(t)
  }

  /** Some event of a known user has a timestamp. */
  predicate HasTimedEvent(events: seq<Event>)
  {
    exists e :: e in events && e.userId.Some? && e.eventTimestamp.Some?
  }

  /** Some event of a known user has a session id. */
  predicate HasSessionEvent(events: seq<Event>)
  {
    exists e :: e in events && e.userId.Some? && e.sessionId.Some?
  }

  /** Some event belongs to a known user. */
  predicate HasKnownEvent(events: seq<Event>)
  {
    exists e :: e in events && e.userId.Some?
  }

  /** Without an `event_type` column, `ev_count` is merged exactly when some event has a user. */
  lemma MergedCountPresence(users: seq<User>, events: seq<Event>, hasSessionColumn: bool)
    ensures HasColumn(Merged(users, events, false, hasSessionColumn), CountName) <==> HasKnownEvent(events)
  {
    if HasKnownEvent(events) {
      MergedCountColumn(users, events, hasSessionColumn);
    } else {
      MergedNamesAre(users, events, false, hasSessionColumn);
      FixedNames();
      assert CountPart(events).keys == {};
      PivotNamesFacts(events);
    }
  }

  lemma TypeCountOutside(events: seq<Event>, id: Id, t: string)
    requires id !in PivotKeys(events)
    ensures TypeCount(events, id, t) == 0
  {
    TypeCountNone(events, id, t);
  }

  /**
   * With an `event_type` column the output has `ev_<t>` exactly for the types
   * of events of known users, holding each user's count of such events with a
   * uuid (0 for a user without typed events).
   */
  lemma FinishedTypeColumn(users: seq<User>, events: seq<Event>, hasSessionColumn: bool, t: string, i: nat)
    requires i < |users|
    ensures WellFormed(Merged(users, events, true, hasSessionColumn))
    ensures var f := Finish(Merged(users, events, true, hasSessionColumn));
      && (HasColumn(f, EvName(t)) <==> HasTypedEvent(events, t))
      && (HasColumn(f, EvName(t)) ==>
            && |Get(f, EvName(t)).cells| == |users|
              && Get(f, EvName(t)).cells[i] == Num(TypeCount(events, users[i].userId, t) as real))
  {
    var m := Merged(users, events, true, hasSessionColumn);
    MergedWellFormed(users, events, true, hasSessionColumn);
    EvNameFacts(t);
    FinishKeeps(m, EvName(t));
    if HasTypedEvent(events, t) {
      MergedTypeCell(users, events, hasSessionColumn, t, i);
      MergedTypeColumn(users, events, hasSessionColumn, t);
      FinishCell(m, EvName(t), i);
    } else {
      MergedLacksType(users, events, true, hasSessionColumn, t);
    }
  }
  lemma FeaturesTypeColumn(users: seq<User>, events: seq<Event>, hasSessionColumn: bool, t: string, i: nat)
    requires i < |users|
    ensures var f := Features(users, events, true, hasSessionColumn);
      && (HasColumn(f, EvName(t)) <==> HasTypedEvent(events, t))
      && (HasColumn(f, EvName(t)) ==>
            && |Get(f, EvName(t)).cells| == |users|
              && Get(f, EvName(t)).cells[i] == Num(TypeCount(events, users[i].userId, t) as real))
  {
    FinishedTypeColumn(users, events, hasSessionColumn, t, i);
  }



  /** Without an `event_type` column, `ev_count` is each user's number of events (0 for none). */
  lemma FinishedCountColumn(users: seq<User>, events: seq<Event>, hasSessionColumn: bool, i: nat)
    requires i < |users|
    ensures WellFormed(Merged(users, events, false, hasSessionColumn))
    ensures var f := Finish(Merged(users, events, false, hasSessionColumn));
      && (HasColumn(f, CountName) <==> HasKnownEvent(events))
      && (HasColumn(f, CountName) ==>
            && |Get(f, CountName).cells| == |users|
              && Get(f, CountName).cells[i] == Num(EventsOf(events, users[i].userId) as real))
  {
    var m := Merged(users, events, false, hasSessionColumn);
    MergedWellFormed(users, events, false, hasSessionColumn);
    FixedNames();
    FinishKeeps(m, CountName);
    MergedCountPresence(users, events, hasSessionColumn);
    if HasKnownEvent(events) {
      MergedCountColumn(users, events, hasSessionColumn);
      FinishCell(m, CountName, i);
      var id := users[i].userId;
      if !exists e :: e in events && e.userId == Some(id) {
        EventsOfNone(events, id);
      }
    }
  }
  lemma FeaturesCountColumn(users: seq<User>, events: seq<Event>, hasSessionColumn: bool, i: nat)
    requires i < |users|
    ensures var f := Features(users, events, false, hasSessionColumn);
      && (HasColumn(f, CountName) <==> HasKnownEvent(events))
      && (HasColumn(f, CountName) ==>
            && |Get(f, CountName).cells| == |users|
              && Get(f, CountName).cells[i] == Num(EventsOf(events, users[i].userId) as real))
  {
    FinishedCountColumn(users, events, hasSessionColumn, i);
  }


  /** `active_days` exists exactly when some event has a timestamp, and counts each user's distinct dates. */
  lemma FinishedActiveDays(users: seq<User>, events: seq<Event>, hasTypeColumn: bool, hasSessionColumn: bool, i: nat)
    requires i < |users|
    ensures WellFormed(Merged(users, events, hasTypeColumn, hasSessionColumn))
    ensures var f := Finish(Merged(users, events, hasTypeColumn, hasSessionColumn));
      && (HasColumn(f, ActiveDaysName) <==> HasTimedEvent(events))
      && (HasColumn(f, ActiveDaysName) ==>
            && |Get(f, ActiveDaysName).cells| == |users|
              && Get(f, ActiveDaysName).cells[i] == Num(|DaysOf(events, users[i].userId)| as real))
  {
    var m := Merged(users, events, hasTypeColumn, hasSessionColumn);
    MergedWellFormed(users, events, hasTypeColumn, hasSessionColumn);
    FixedNames();
    FinishKeeps(m, ActiveDaysName);
    MergedActiveDays(users, events, hasTypeColumn, hasSessionColumn);
  }
  lemma FeaturesActiveDays(users: seq<User>, events: seq<Event>, hasTypeColumn: bool, hasSessionColumn: bool, i: nat)
    requires i < |users|
    ensures var f := Features(users, events, hasTypeColumn, hasSessionColumn);
      && (HasColumn(f, ActiveDaysName) <==> HasTimedEvent(events))
      && (HasColumn(f, ActiveDaysName) ==>
            && |Get(f, ActiveDaysName).cells| == |users|
              && Get(f, ActiveDaysName).cells[i] == Num(|DaysOf(events, users[i].userId)| as real))
  {
    FinishedActiveDays(users, events, hasTypeColumn, hasSessionColumn, i);
  }


  /** The `sessions` column of the written table. */
  /** The `sessions` column of the finished merge. */
  lemma FinishedSessionCount(users: seq<User>, events: seq<Event>, hasTypeColumn: bool, hasSessionColumn: bool, i: nat)
    requires i < |users|
    ensures WellFormed(Merged(users, events, hasTypeColumn, hasSessionColumn))
    ensures var f := Finish(Merged(users, events, hasTypeColumn, hasSessionColumn));
      && (HasColumn(f, SessionsName) <==> hasSessionColumn && HasSessionEvent(events))
      && (HasColumn(f, SessionsName) ==>
            && |Get(f, SessionsName).cells| == |users|
            && Get(f, SessionsName).cells[i] == Num(|SessionsOf(events, users[i].userId)| as real))
  {
    var m := Merged(users, events, hasTypeColumn, hasSessionColumn);
    MergedWellFormed(users, events, hasTypeColumn, hasSessionColumn);
    FixedNames();
    FinishKeeps(m, SessionsName);
    MergedSessionsPresent(users, events, hasTypeColumn, hasSessionColumn);
    if hasSessionColumn && HasSessionEvent(events) {
      MergedSessionCells(users, events, hasTypeColumn, hasSessionColumn, i);
      FinishCell(m, SessionsName, i);
    }
  }

  lemma FeaturesSessionCount(users: seq<User>, events: seq<Event>, hasTypeColumn: bool, hasSessionColumn: bool, i: nat)
    requires i < |users|
    ensures var f := Features(users, events, hasTypeColumn, hasSessionColumn);
      && (HasColumn(f, SessionsName) <==> hasSessionColumn && HasSessionEvent(events))
      && (HasColumn(f, SessionsName) ==>
            && |Get(f, SessionsName).cells| == |users|
            && Get(f, SessionsName).cells[i] == Num(|SessionsOf(events, users[i].userId)| as real))
  {
    FinishedSessionCount(users, events, hasTypeColumn, hasSessionColumn, i);
  }



  /** The `avg_events_per_session` column of the written table. */
  lemma FinishedSessionAverage(users: seq<User>, events: seq<Event>, hasTypeColumn: bool, hasSessionColumn: bool, i: nat)
    requires i < |users|
    ensures WellFormed(Merged(users, events, hasTypeColumn, hasSessionColumn))
    ensures var f := Finish(Merged(users, events, hasTypeColumn, hasSessionColumn));
      && (HasColumn(f, AvgName) <==> hasSessionColumn && HasSessionEvent(events))
      && (HasColumn(f, AvgName) ==>
            && |Get(f, AvgName).cells| == |users|
            && Get(f, AvgName).cells[i] == Num(AvgPerSession(events, users[i].userId)))
  {
    var m := Merged(users, events, hasTypeColumn, hasSessionColumn);
    MergedWellFormed(users, events, hasTypeColumn, hasSessionColumn);
    FixedNames();
    FinishKeeps(m, AvgName);
    MergedSessionsPresent(users, events, hasTypeColumn, hasSessionColumn);
    if hasSessionColumn && HasSessionEvent(events) {
      MergedSessionCells(users, events, hasTypeColumn, hasSessionColumn, i);
      FinishCell(m, AvgName, i);
    }
  }
  lemma FeaturesSessionAverage(users: seq<User>, events: seq<Event>, hasTypeColumn: bool, hasSessionColumn: bool, i: nat)
    requires i < |users|
    ensures var f := Features(users, events, hasTypeColumn, hasSessionColumn);
      && (HasColumn(f, AvgName) <==> hasSessionColumn && HasSessionEvent(events))
      && (HasColumn(f, AvgName) ==>
            && |Get(f, AvgName).cells| == |users|
            && Get(f, AvgName).cells[i] == Num(AvgPerSession(events, users[i].userId)))
  {
    FinishedSessionAverage(users, events, hasTypeColumn, hasSessionColumn, i);
  }



  /**
   * `sessions` and `avg_events_per_session` exist exactly when there is a
   * `session_id` column and some event has one; they hold the user's distinct
   * sessions and mean events per session (0 for a user without sessions).
   */
  lemma FeaturesSessions(users: seq<User>, events: seq<Event>, hasTypeColumn: bool, hasSessionColumn: bool, i: nat)
    requires i < |users|
    ensures var f := Features(users, events, hasTypeColumn, hasSessionColumn);
      && (HasColumn(f, SessionsName) <==> hasSessionColumn && HasSessionEvent(events))
      && (HasColumn(f, AvgName) <==> hasSessionColumn && HasSessionEvent(events))
      && (HasColumn(f, SessionsName) ==>
            && |Get(f, SessionsName).cells| == |users| && |Get(f, AvgName).cells| == |users|
              && Get(f, SessionsName).cells[i] == Num(|SessionsOf(events, users[i].userId)| as real)
              && Get(f, AvgName).cells[i] == Num(AvgPerSession(events, users[i].userId)))
  {
    FeaturesSessionCount(users, events, hasTypeColumn, hasSessionColumn, i);
    FeaturesSessionAverage(users, events, hasTypeColumn, hasSessionColumn, i);
  }

  /** `a / b` of two counts, 0 when `b` is 0. */
  function RatioOf(x: nat, y: nat): real
  {
    if y == 0 then 0.0 else (x as real) / (y as real)
  }

  /** With an `event_type` column, a ratio column exists exactly when both of its event types occur. */
  lemma FeaturesRatioPresent(users: seq<User>, events: seq<Event>, hasSessionColumn: bool, k: nat, a: string, b: string)
    requires k < |RatioPairs| && RatioPairs[k] == (EvName(a), EvName(b))
    ensures var f := Features(users, events, true, hasSessionColumn);
      HasColumn(f, RatioName(EvName(a), EvName(b))) <==> HasTypedEvent(events, a) && HasTypedEvent(events, b)
  {
    var m := Merged(users, events, true, hasSessionColumn);
    MergedWellFormed(users, events, true, hasSessionColumn);
    FinishRatio(m, k);
    if HasTypedEvent(events, a) {
      MergedTypeColumn(users, events, hasSessionColumn, a);
    } else {
      MergedLacksType(users, events, true, hasSessionColumn, a);
    }
    if HasTypedEvent(events, b) {
      MergedTypeColumn(users, events, hasSessionColumn, b);
    } else {
      MergedLacksType(users, events, true, hasSessionColumn, b);
    }
  }

  /** One user's merged `ev_<t>` cell: the count when the user has typed events, null otherwise (count 0). */
  lemma MergedTypeCell(users: seq<User>, events: seq<Event>, hasSessionColumn: bool, t: string, i: nat)
    requires HasTypedEvent(events, t) && i < |users|
    ensures var m := Merged(users, events, true, hasSessionColumn);
      && HasColumn(m, EvName(t)) && |Get(m, EvName(t)).cells| == |users|
      && Get(m, EvName(t)).cells[i] ==
           (if users[i].userId in PivotKeys(events) then Num(TypeCount(events, users[i].userId, t) as real) else Null)
      && (users[i].userId !in PivotKeys(events) ==> TypeCount(events, users[i].userId, t) == 0)
  {
    MergedTypeColumn(users, events, hasSessionColumn, t);
    if users[i].userId !in PivotKeys(events) {
      TypeCountOutside(events, users[i].userId, t);
    }
  }

  /** A ratio cell of the written table: the first type's count over the second's, 0 when that is 0. */
  lemma FeaturesRatioCell(users: seq<User>, events: seq<Event>, hasSessionColumn: bool, k: nat, a: string, b: string, i: nat)
    requires k < |RatioPairs| && RatioPairs[k] == (EvName(a), EvName(b)) && i < |users|
    requires HasTypedEvent(events, a) && HasTypedEvent(events, b)
    ensures var f := Features(users, events, true, hasSessionColumn); var n := RatioName(EvName(a), EvName(b));
      && HasColumn(f, n) && i < |Get(f, n).cells|
      && Get(f, n).cells[i] == Num(RatioOf(TypeCount(events, users[i].userId, a), TypeCount(events, users[i].userId, b)))
  {
    var m := Merged(users, events, true, hasSessionColumn);
    var id := users[i].userId;
    MergedWellFormed(users, events, true, hasSessionColumn);
    FinishRatio(m, k);
    MergedTypeCell(users, events, hasSessionColumn, a, i);
    MergedTypeCell(users, events, hasSessionColumn, b, i);
    FeaturesFacts(users, events, true, hasSessionColumn);
    GetLength(Features(users, events, true, hasSessionColumn), RatioName(EvName(a), EvName(b)));
  }

  /**
   * With an `event_type` column, each ratio column exists exactly when both
   * event types occur, and holds the user's count of the first type over the
   * count of the second, 0 when the second is 0.
   */
  lemma FeaturesRatio(users: seq<User>, events: seq<Event>, hasSessionColumn: bool, k: nat, a: string, b: string, i: nat)
    requires k < |RatioPairs| && RatioPairs[k] == (EvName(a), EvName(b)) && i < |users|
    ensures var f := Features(users, events, true, hasSessionColumn); var n := RatioName(EvName(a), EvName(b));
      && (HasColumn(f, n) <==> HasTypedEvent(events, a) && HasTypedEvent(events, b))
      && (HasColumn(f, n) ==>
            && |Get(f, n).cells| == |users|
            && Get(f, n).cells[i] == Num(RatioOf(TypeCount(events, users[i].userId, a), TypeCount(events, users[i].userId, b))))
  {
    var f := Features(users, events, true, hasSessionColumn);
    FeaturesRatioPresent(users, events, hasSessionColumn, k, a, b);
    FeaturesFacts(users, events, true, hasSessionColumn);
    if HasTypedEvent(events, a) && HasTypedEvent(events, b) {
      FeaturesRatioCell(users, events, hasSessionColumn, k, a, b, i);
      GetLength(f, RatioName(EvName(a), EvName(b)));
    }
  }



  /** A type's count as a score component: 0 without an `event_type` column. */
  function TypeFeature(events: seq<Event>, id: Id, t: string, hasTypeColumn: bool): real
  {
    if hasTypeColumn then TypeCount(events, id, t) as real else 0.0
  }

  /** Distinct sessions as a score component: 0 without a `session_id` column. */
  function SessionFeature(events: seq<Event>, id: Id, hasSessionColumn: bool): real
  {
    if hasSessionColumn then |SessionsOf(events, id)| as real else 0.0
  }

  /** The engagement score of one user, from the event log. */
  function EngagementOf(events: seq<Event>, id: Id, hasTypeColumn: bool, hasSessionColumn: bool): real
  {
    1.0 * TypeFeature(events, id, "play", hasTypeColumn) + 0.5 * TypeFeature(events, id, "pause", hasTypeColumn)
    + 1.2 * TypeFeature(events, id, "next", hasTypeColumn) + 3.0 * (|DaysOf(events, id)| as real)
    + 2.0 * SessionFeature(events, id, hasSessionColumn)
  }

  /** A merged `ev_<t>` column read as a score component is the user's count of type `t`. */
  lemma ComponentTypeValue(users: seq<User>, events: seq<Event>, hasTypeColumn: bool, hasSessionColumn: bool, t: string, i: nat)
    requires i < |users| && EvName(t) != CountName
    ensures var m := Merged(users, events, hasTypeColumn, hasSessionColumn);
      && WellFormed(m) && m.height == |users|
      && (HasColumn(m, EvName(t)) <==> hasTypeColumn && HasTypedEvent(events, t))
      && ComponentValue(m, EvName(t), i) == TypeFeature(events, users[i].userId, t, hasTypeColumn)
  {
    MergedWellFormed(users, events, hasTypeColumn, hasSessionColumn);
    var id := users[i].userId;
    if hasTypeColumn && HasTypedEvent(events, t) {
      MergedTypeColumn(users, events, hasSessionColumn, t);
      if id !in PivotKeys(events) {
        TypeCountOutside(events, id, t);
      }
    } else {
      MergedLacksType(users, events, hasTypeColumn, hasSessionColumn, t);
      if hasTypeColumn {
        TypeCountNone(events, id, t);
      }
    }
  }

  /** `active_days` and `sessions` read as score components. */
  lemma ComponentAggregateValues(users: seq<User>, events: seq<Event>, hasTypeColumn: bool, hasSessionColumn: bool, i: nat)
    requires i < |users|
    ensures var m := Merged(users, events, hasTypeColumn, hasSessionColumn);
      && WellFormed(m) && m.height == |users|
      && (HasColumn(m, ActiveDaysName) <==> HasTimedEvent(events))
      && (HasColumn(m, SessionsName) <==> hasSessionColumn && HasSessionEvent(events))
      && ComponentValue(m, ActiveDaysName, i) == |DaysOf(events, users[i].userId)| as real
      && ComponentValue(m, SessionsName, i) == SessionFeature(events, users[i].userId, hasSessionColumn)
  {
    MergedWellFormed(users, events, hasTypeColumn, hasSessionColumn);
    MergedActiveDays(users, events, hasTypeColumn, hasSessionColumn);
    MergedSessions(users, events, hasTypeColumn, hasSessionColumn);
  }

  lemma ScoreIs(m: Table, i: nat, play: real, pause: real, next: real, days: real, sessions: real)
    requires WellFormed(m) && i < m.height
    requires ComponentValue(m, "ev_play", i) == play && ComponentValue(m, "ev_pause", i) == pause
    requires ComponentValue(m, "ev_next", i) == next && ComponentValue(m, ActiveDaysName, i) == days
    requires ComponentValue(m, SessionsName, i) == sessions
    ensures Score(m, i) == 1.0 * play + 0.5 * pause + 1.2 * next + 3.0 * days + 2.0 * sessions
  {
  }

  lemma AnyComponentIs(m: Table, play: bool, pause: bool, next: bool, days: bool, sessions: bool)
    requires HasColumn(m, "ev_play") == play && HasColumn(m, "ev_pause") == pause && HasColumn(m, "ev_next") == next
    requires HasColumn(m, ActiveDaysName) == days && HasColumn(m, SessionsName) == sessions
    ensures AnyComponent(m) <==> play || pause || next || days || sessions
  {
    assert Components[0] == "ev_play" && Components[1] == "ev_pause" && Components[2] == "ev_next";
    assert Components[3] == ActiveDaysName && Components[4] == SessionsName;
  }

  /** Some component is merged exactly when some event supplies one. */
  lemma MergedAnyComponent(users: seq<User>, events: seq<Event>, hasTypeColumn: bool, hasSessionColumn: bool)
    requires |users| > 0
    ensures var m := Merged(users, events, hasTypeColumn, hasSessionColumn);
      AnyComponent(m) <==>
        || (hasTypeColumn && (HasTypedEvent(events, "play") || HasTypedEvent(events, "pause") || HasTypedEvent(events, "next")))
        || HasTimedEvent(events)
        || (hasSessionColumn && HasSessionEvent(events))
  {
    var m := Merged(users, events, hasTypeColumn, hasSessionColumn);
    assert "ev_play" == EvName("play") && "ev_pause" == EvName("pause") && "ev_next" == EvName("next");
    assert CountName[3] == 'c' && EvName("play")[3] == 'p' && EvName("pause")[3] == 'p' && EvName("next")[3] == 'n';
    ComponentTypeValue(users, events, hasTypeColumn, hasSessionColumn, "play", 0);
    ComponentTypeValue(users, events, hasTypeColumn, hasSessionColumn, "pause", 0);
    ComponentTypeValue(users, events, hasTypeColumn, hasSessionColumn, "next", 0);
    ComponentAggregateValues(users, events, hasTypeColumn, hasSessionColumn, 0);
    AnyComponentIs(m, hasTypeColumn && HasTypedEvent(events, "play"), hasTypeColumn && HasTypedEvent(events, "pause"),
      hasTypeColumn && HasTypedEvent(events, "next"), HasTimedEvent(events), hasSessionColumn && HasSessionEvent(events));
  }

  /** A merged row's score, in terms of the event log. */
  lemma MergedScore(users: seq<User>, events: seq<Event>, hasTypeColumn: bool, hasSessionColumn: bool, i: nat)
    requires i < |users|
    ensures var m := Merged(users, events, hasTypeColumn, hasSessionColumn);
      && WellFormed(m) && m.height == |users|
      && Score(m, i) == EngagementOf(events, users[i].userId, hasTypeColumn, hasSessionColumn)
  {
    var m := Merged(users, events, hasTypeColumn, hasSessionColumn);
    var id := users[i].userId;
    assert "ev_play" == EvName("play") && "ev_pause" == EvName("pause") && "ev_next" == EvName("next");
    assert CountName[3] == 'c' && EvName("play")[3] == 'p' && EvName("pause")[3] == 'p' && EvName("next")[3] == 'n';
    ComponentTypeValue(users, events, hasTypeColumn, hasSessionColumn, "play", i);
    ComponentTypeValue(users, events, hasTypeColumn, hasSessionColumn, "pause", i);
    ComponentTypeValue(users, events, hasTypeColumn, hasSessionColumn, "next", i);
    ComponentAggregateValues(users, events, hasTypeColumn, hasSessionColumn, i);
    ScoreIs(m, i, TypeFeature(events, id, "play", hasTypeColumn), TypeFeature(events, id, "pause", hasTypeColumn),
      TypeFeature(events, id, "next", hasTypeColumn), |DaysOf(events, id)| as real, SessionFeature(events, id, hasSessionColumn));
  }

  /** The merged components, in terms of the event log. */
  lemma MergedComponents(users: seq<User>, events: seq<Event>, hasTypeColumn: bool, hasSessionColumn: bool, i: nat)
    requires i < |users|
    ensures var m := Merged(users, events, hasTypeColumn, hasSessionColumn);
      && WellFormed(m) && m.height == |users|
      && (AnyComponent(m) <==>
            || (hasTypeColumn && (HasTypedEvent(events, "play") || HasTypedEvent(events, "pause") || HasTypedEvent(events, "next")))
            || HasTimedEvent(events)
            || (hasSessionColumn && HasSessionEvent(events)))
      && Score(m, i) == EngagementOf(events, users[i].userId, hasTypeColumn, hasSessionColumn)
  {
    MergedAnyComponent(users, events, hasTypeColumn, hasSessionColumn);
    MergedScore(users, events, hasTypeColumn, hasSessionColumn, i);
  }


  /**
   * `engagement_score` exists exactly when some component does, and is
   * 1.0 plays + 0.5 pauses + 1.2 nexts + 3.0 active days + 2.0 sessions.
   */
  lemma FeaturesEngagement(users: seq<User>, events: seq<Event>, hasTypeColumn: bool, hasSessionColumn: bool, i: nat)
    requires i < |users|
    ensures var f := Features(users, events, hasTypeColumn, hasSessionColumn);
      && (HasColumn(f, EngagementName) <==>
            || (hasTypeColumn && (HasTypedEvent(events, "play") || HasTypedEvent(events, "pause") || HasTypedEvent(events, "next")))
            || HasTimedEvent(events)
            || (hasSessionColumn && HasSessionEvent(events)))
      && (HasColumn(f, EngagementName) ==>
            && |Get(f, EngagementName).cells| == |users|
            && Get(f, EngagementName).cells[i] == Num(EngagementOf(events, users[i].userId, hasTypeColumn, hasSessionColumn)))
  {
    var m := Merged(users, events, hasTypeColumn, hasSessionColumn);
    MergedWellFormed(users, events, hasTypeColumn, hasSessionColumn);
    FinishEngagement(m);
    FeaturesFacts(users, events, hasTypeColumn, hasSessionColumn);
    MergedComponents(users, events, hasTypeColumn, hasSessionColumn, i);
  }
}
