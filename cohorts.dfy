/**
 * `build_retention_cohorts` (etl/cohorts/31_cohorts_retention.py): the
 * label builder. Events are left-joined to users by id; each joined row gets
 * its whole days since signup; per user the D7/D30 window counts and the
 * `churn_30d` label are derived, and per (signup month, event month) the
 * distinct active users are divided by the cohort size.
 */
module Cohorts {
  import opened Common
  import opened Records

  /** A row of `merged`: an event with the joined user's signup (both `None` when unmatched). */
  datatype MergedRow = MergedRow(
    userId: Option<Id>,
    eventTimestamp: Option<int>,
    eventMonth: Option<int>,
    cohortMonth: Option<int>,
    signupDate: Option<int>)

  /** One row of the metrics table: the user row, its `cohort_month` and the three metrics. */
  datatype MetricsRow = MetricsRow(
    user: User,
    cohortMonth: Option<int>,
    eventsD7: nat,
    eventsD30: nat,
    churn30d: nat)

  /** One row of the cohort table, keyed by (cohort month, event month). */
  datatype RetentionRow = RetentionRow(activeUsers: nat, cohortSize: nat, retentionRate: real)

  const D7Window: int := 7
  const D30Window: int := 30
  const ChurnHorizon: int := 30
  const CohortFile: string := "retention_cohorts.csv"
  const MetricsFile: string := "user_retention_metrics.csv"

  /** `users["signup_date"].dt.to_period("M")`. */
  function CohortOf(u: User): Option<int>
  {
    if u.signupDate.Some? then Some(MonthOf(u.signupDate.value)) else None
  }

  /** `events["event_timestamp"].dt.to_period("M")`. */
  function EventMonthOf(e: Event): Option<int>
  {
    if e.eventTimestamp.Some? then Some(MonthOf(e.eventTimestamp.value)) else None
  }

  /** The row `merge` builds for an event and a users row with its id. */
  function Joined(e: Event, u: User): MergedRow
  {
    MergedRow(e.userId, e.eventTimestamp, EventMonthOf(e), CohortOf(u), u.signupDate)
  }

  /** The row `merge(how="left")` keeps for an event without a users row. */
  function Unmatched(e: Event): MergedRow
  {
    MergedRow(e.userId, e.eventTimestamp, EventMonthOf(e), None, None)
  }

  /** The joined rows of one event, in users order. */
  function Matches(e: Event, users: seq<User>): (m: seq<MergedRow>)
    ensures forall r :: r in m <==> exists u :: u in users && e.userId == Some(u.userId) && r == Joined(e, u)
    ensures (forall u :: u in users ==> e.userId != Some(u.userId)) ==> m == []
  {
    if users == [] then []
    else
      (if e.userId == Some(users[0].userId) then [Joined(e, users[0])] else [])
      + Matches(e, users[1..])
  }

  /** A left join keeps every event: once per matching users row, or once unmatched. */
  function MergeEvent(e: Event, users: seq<User>): (m: seq<MergedRow>)
    ensures |m| >= 1
  {
    var j := Matches(e, users);
    if j == [] then [Unmatched(e)] else j
  }

  /** `events.merge(users[["user_id", "cohort_month", "signup_date"]], on="user_id", how="left")`. */
  function Merge(events: seq<Event>, users: seq<User>): (m: seq<MergedRow>)
    ensures |m| >= |events|
  {
    if events == [] then []
    else Merge(events[..|events| - 1], users) + MergeEvent(events[|events| - 1], users)
  }

  /** `(event_timestamp - signup_date).dt.days`: whole days, rounded down; NaN when either is missing. */
  function Days(r: MergedRow): (d: Option<int>)
    ensures d.Some? <==> r.eventTimestamp.Some? && r.signupDate.Some?
  {
    if r.eventTimestamp.Some? && r.signupDate.Some? then
      Some(WholeDays(r.eventTimestamp.value - r.signupDate.value))
    else None
  }

  /** The row is the user's and at most `limit` days after signup. */
  predicate InWindow(r: MergedRow, id: Id, limit: int)
  {
    r.userId == Some(id) && Days(r).Some? && Days(r).value <= limit
  }

  /** `merged[days <= limit].groupby("user_id").size()` of one user, 0 when the user has no group. */
  function WindowCount(rows: seq<MergedRow>, id: Id, limit: int): (n: nat)
    ensures n <= |rows|
  {
    if rows == [] then 0
    else
      WindowCount(rows[..|rows| - 1], id, limit) + (if InWindow(rows[|rows| - 1], id, limit) then 1 else 0)
  }

  /** `merged.groupby("user_id")["days_since_signup"].max()` of one user: NaN is skipped. */
  function MaxDays(rows: seq<MergedRow>, id: Id): (m: Option<int>)
    ensures m.Some? ==> exists i :: 0 <= i < |rows| && rows[i].userId == Some(id) && Days(rows[i]) == m
    ensures forall i :: 0 <= i < |rows| && rows[i].userId == Some(id) && Days(rows[i]).Some? ==>
      m.Some? && Days(rows[i]).value <= m.value
  {
    if rows == [] then None
    else
      var init := rows[..|rows| - 1];
      var m := MaxDays(init, id);
      var r := rows[|rows| - 1];
      assert forall i :: 0 <= i < |init| ==> rows[i] == init[i];
      if r.userId == Some(id) && Days(r).Some? then
        (if m.Some? && m.value >= Days(r).value then m else Days(r))
      else m
  }

  /** `0 if pd.notnull(x) and x > 30 else 1`; also the `fillna` value 1 of a user without events. */
  function ChurnLabel(maxDays: Option<int>): nat
  {
    if maxDays.Some? && maxDays.value > ChurnHorizon then 0 else 1
  }

  /** The metrics row of one users row. */
  function MetricsOf(u: User, merged: seq<MergedRow>): MetricsRow
  {
    MetricsRow(u, CohortOf(u),
      WindowCount(merged, u.userId, D7Window),
      WindowCount(merged, u.userId, D30Window),
      ChurnLabel(MaxDays(merged, u.userId)))
  }

  /** `users.merge(d7).merge(d30).merge(churn)` with the fill policy: one row per users row. */
  function Metrics(users: seq<User>, merged: seq<MergedRow>): (m: seq<MetricsRow>)
    ensures |m| == |users|
  {
    seq(|users|, i requires 0 <= i < |users| => MetricsOf(users[i], merged))
  }

  /** The (cohort month, event month) groups of `merged`; NaT keys form no group. */
  function Groups(merged: seq<MergedRow>): set<(int, int)>
  {
    set r | r in merged && r.cohortMonth.Some? && r.eventMonth.Some? :: (r.cohortMonth.value, r.eventMonth.value)
  }

  /** The distinct user ids of one group (`nunique` skips a null id). */
  function Active(merged: seq<MergedRow>, cohort: int, month: int): set<Id>
  {
    set r | r in merged && r.cohortMonth == Some(cohort) && r.eventMonth == Some(month) && r.userId.Some? :: r.userId.value
  }

  /** `users.groupby("cohort_month")["user_id"].nunique()` of one month. */
  function Members(users: seq<User>, cohort: int): set<Id>
  {
    set u | u in users && CohortOf(u) == Some(cohort) :: u.userId
  }

  /** The cohort table: the inner join with the cohort sizes keeps the groups whose month has users. */
  function Retention(users: seq<User>, merged: seq<MergedRow>): map<(int, int), RetentionRow>
  {
    map k | k in Groups(merged) && |Members(users, k.0)| > 0 ::
      RetentionRow(|Active(merged, k.0, k.1)|, |Members(users, k.0)|,
        (|Active(merged, k.0, k.1)| as real) / (|Members(users, k.0)| as real))
  }

  /**
   * Independent statement of the label: some event of the user lies more than
   * 30 whole days after the signup of a users row with that id.
   */
  ghost predicate EventAfterHorizon(users: seq<User>, events: seq<Event>, id: Id)
  {
    exists e, u :: e in events && u in users && e.userId == Some(id) && u.userId == id
      && e.eventTimestamp.Some? && u.signupDate.Some?
      && WholeDays(e.eventTimestamp.value - u.signupDate.value) > ChurnHorizon
  }

  /** Some event carries the id. */
  ghost predicate HasEvents(events: seq<Event>, id: Id)
  {
    exists e :: e in events && e.userId == Some(id)
  }

  /**
   * Independent statement of a cohort row's active users: the ids of the users
   * rows of signup month `cohort` with an event of theirs in `month`.
   */
  ghost function ActiveUsersOf(users: seq<User>, events: seq<Event>, cohort: int, month: int): set<Id>
  {
    set e, u | e in events && u in users && e.userId == Some(u.userId)
      && CohortOf(u) == Some(cohort) && EventMonthOf(e) == Some(month) :: u.userId
  }

  /** Some event, matched to a users row, has both dates and falls in (signup month, event month) `k`. */
  ghost predicate MatchedMonths(users: seq<User>, events: seq<Event>, k: (int, int))
  {
    exists e, u :: e in events && u in users && e.userId == Some(u.userId)
      && u.signupDate.Some? && e.eventTimestamp.Some?
      && k == (MonthOf(u.signupDate.value), MonthOf(e.eventTimestamp.value))
  }

  /** The users rows of `id` whose signup lies at most `limit` whole days before event `e`. */
  function PairsWithin(e: Event, users: seq<User>, id: Id, limit: int): nat
  {
    if users == [] then 0
    else
      (if e.userId == Some(id) && users[0].userId == id && e.eventTimestamp.Some? && users[0].signupDate.Some?
          && WholeDays(e.eventTimestamp.value - users[0].signupDate.value) <= limit then 1 else 0)
      + PairsWithin(e, users[1..], id, limit)
  }

  /**
   * Independent statement of `events_D7` / `events_D30`: the number of (event,
   * users row) pairs of `id` with the event at most `limit` days after signup.
   */
  function EventsWithin(users: seq<User>, events: seq<Event>, id: Id, limit: int): nat
  {
    if events == [] then 0
    else EventsWithin(users, events[..|events| - 1], id, limit) + PairsWithin(events[|events| - 1], users, id, limit)
  }

  method BuildRetentionCohorts(users: seq<User>, events: seq<Event>, outCsv: string)
    returns (retention: map<(int, int), RetentionRow>, metrics: seq<MetricsRow>, metricsPath: string)
    // The cohort rows are exactly the month pairs of matched, dated events.
    ensures forall k :: k in retention <==> MatchedMonths(users, events, k)
    // A row's active users are the distinct users of its cohort active in its month, its size
    // the distinct users of its cohort, and its rate their quotient, in (0, 1].
    ensures forall k :: k in retention ==>
      && retention[k].activeUsers == |ActiveUsersOf(users, events, k.0, k.1)|
      && retention[k].cohortSize == |Members(users, k.0)|
      && 0 < retention[k].activeUsers <= retention[k].cohortSize
      && retention[k].retentionRate == (retention[k].activeUsers as real) / (retention[k].cohortSize as real)
      && 0.0 < retention[k].retentionRate <= 1.0
    // One metrics row per users row, in users order.
    ensures |metrics| == |users|
    ensures forall i :: 0 <= i < |users| ==>
      && metrics[i].user == users[i]
      && metrics[i].cohortMonth == CohortOf(users[i])
      && metrics[i].eventsD7 == EventsWithin(users, events, users[i].userId, D7Window)
      && metrics[i].eventsD30 == EventsWithin(users, events, users[i].userId, D30Window)
      && metrics[i].eventsD7 <= metrics[i].eventsD30
      && (metrics[i].churn30d == 0 <==> EventAfterHorizon(users, events, users[i].userId))
      && (!HasEvents(events, users[i].userId) ==>
            metrics[i].eventsD7 == 0 && metrics[i].eventsD30 == 0 && metrics[i].churn30d == 1)
    ensures metricsPath == ReplaceAll(outCsv, CohortFile, MetricsFile)
  {
    var merged := Merge(events, users);
    retention := Retention(users, merged);
    RetentionBounds(users, events);
    RetentionKeys(users, events);
    RetentionValues(users, events);

    metrics := Metrics(users, merged);
    MetricsTable(users, events);
    metricsPath := ReplaceAll(outCsv, CohortFile, MetricsFile);
  }

  // ---------------------------------------------------------------------
  // Lemmas

  /** One metrics row per users row, in users order, with the meaning of its counters. */
  lemma MetricsTable(users: seq<User>, events: seq<Event>)
    ensures var metrics := Metrics(users, Merge(events, users));
      && |metrics| == |users|
      && forall i :: 0 <= i < |users| ==>
        && metrics[i].user == users[i]
        && metrics[i].cohortMonth == CohortOf(users[i])
        && metrics[i].eventsD7 == EventsWithin(users, events, users[i].userId, D7Window)
        && metrics[i].eventsD30 == EventsWithin(users, events, users[i].userId, D30Window)
        && metrics[i].eventsD7 <= metrics[i].eventsD30
        && (metrics[i].churn30d == 0 <==> EventAfterHorizon(users, events, users[i].userId))
        && (!HasEvents(events, users[i].userId) ==>
              metrics[i].eventsD7 == 0 && metrics[i].eventsD30 == 0 && metrics[i].churn30d == 1)
  {
    forall i | 0 <= i < |users| {
      MetricsRowAt(users, events, i);
    }
  }

  lemma MetricsRowAt(users: seq<User>, events: seq<Event>, i: nat)
    requires i < |users|
    ensures var metrics := Metrics(users, Merge(events, users));
      && |metrics| == |users|
      && metrics[i].user == users[i]
      && metrics[i].cohortMonth == CohortOf(users[i])
      && metrics[i].eventsD7 == EventsWithin(users, events, users[i].userId, D7Window)
      && metrics[i].eventsD30 == EventsWithin(users, events, users[i].userId, D30Window)
      && metrics[i].eventsD7 <= metrics[i].eventsD30
      && (metrics[i].churn30d == 0 <==> EventAfterHorizon(users, events, users[i].userId))
      && (!HasEvents(events, users[i].userId) ==>
            metrics[i].eventsD7 == 0 && metrics[i].eventsD30 == 0 && metrics[i].churn30d == 1)
  {
    var merged := Merge(events, users);
    WindowMonotone(merged, users[i].userId, D7Window, D30Window);
    WindowCountPairs(users, events, users[i].userId, D7Window);
    WindowCountPairs(users, events, users[i].userId, D30Window);
    ChurnLabelMeaning(users, events, users[i].userId);
    if !HasEvents(events, users[i].userId) {
      NoEventsDefaults(users, events, users[i].userId);
    }
  }

  /** Every merged row is an event joined to a users row of its id, or the event unmatched. */
  lemma {:induction false} MergeSound(events: seq<Event>, users: seq<User>)
    ensures forall r :: r in Merge(events, users) ==>
      (exists e :: e in events && r == Unmatched(e))
      || (exists e, u :: e in events && u in users && e.userId == Some(u.userId) && r == Joined(e, u))
  {
    if events != [] {
      var init := events[..|events| - 1];
      var e := events[|events| - 1];
      MergeSound(init, users);
      assert forall x :: x in init ==> x in events;
    }
  }

  /** Every event meets every users row of its id in the merge. */
  lemma {:induction false} MergeComplete(events: seq<Event>, users: seq<User>)
    ensures forall e, u :: e in events && u in users && e.userId == Some(u.userId) ==>
      Joined(e, u) in Merge(events, users)
  {
    if events != [] {
      var init := events[..|events| - 1];
      var last := events[|events| - 1];
      MergeComplete(init, users);
      forall e, u | e in events && u in users && e.userId == Some(u.userId)
        ensures Joined(e, u) in Merge(events, users)
      {
        if e != last {
          var i :| 0 <= i < |events| && events[i] == e;
          assert init[i] == e;
        }
      }
    }
  }

  /** Every merged row carries the user id of an event. */
  lemma MergeIds(events: seq<Event>, users: seq<User>)
    ensures forall r :: r in Merge(events, users) ==> exists e :: e in events && r.userId == e.userId
  {
    MergeSound(events, users);
  }

  /** D7 counts a subset of the rows D30 counts. */
  lemma {:induction false} WindowMonotone(rows: seq<MergedRow>, id: Id, a: int, b: int)
    requires a <= b
    ensures WindowCount(rows, id, a) <= WindowCount(rows, id, b)
  {
    if rows != [] {
      WindowMonotone(rows[..|rows| - 1], id, a, b);
    }
  }

  /** A user none of whose rows lies in any window counts nothing. */
  lemma {:induction false} WindowCountZero(rows: seq<MergedRow>, id: Id, limit: int)
    requires forall r :: r in rows ==> r.userId != Some(id)
    ensures WindowCount(rows, id, limit) == 0
  {
    if rows != [] {
      var init := rows[..|rows| - 1];
      assert forall r :: r in init ==> r in rows;
      WindowCountZero(init, id, limit);
    }
  }

  /** `churn_30d` is 0 exactly when some event lies more than 30 days after signup. */
  lemma ChurnLabelMeaning(users: seq<User>, events: seq<Event>, id: Id)
    ensures ChurnLabel(MaxDays(Merge(events, users), id)) == 0 <==> EventAfterHorizon(users, events, id)
  {
    if ChurnLabel(MaxDays(Merge(events, users), id)) == 0 {
      ChurnZeroHasLateEvent(users, events, id);
    }
    if EventAfterHorizon(users, events, id) {
      LateEventGivesChurnZero(users, events, id);
    }
  }

  lemma ChurnZeroHasLateEvent(users: seq<User>, events: seq<Event>, id: Id)
    requires ChurnLabel(MaxDays(Merge(events, users), id)) == 0
    ensures EventAfterHorizon(users, events, id)
  {
    var merged := Merge(events, users);
    var m := MaxDays(merged, id);
    var i :| 0 <= i < |merged| && merged[i].userId == Some(id) && Days(merged[i]) == m;
    var r := merged[i];
    MergeSound(events, users);
    assert r in merged;
    if e :| e in events && r == Unmatched(e) {
      assert false;
    } else {
      var e, u :| e in events && u in users && e.userId == Some(u.userId) && r == Joined(e, u);
      assert WholeDays(e.eventTimestamp.value - u.signupDate.value) > ChurnHorizon;
    }
  }

  lemma LateEventGivesChurnZero(users: seq<User>, events: seq<Event>, id: Id)
    requires EventAfterHorizon(users, events, id)
    ensures ChurnLabel(MaxDays(Merge(events, users), id)) == 0
  {
    var merged := Merge(events, users);
    var e, u :| e in events && u in users && e.userId == Some(id) && u.userId == id
      && e.eventTimestamp.Some? && u.signupDate.Some?
      && WholeDays(e.eventTimestamp.value - u.signupDate.value) > ChurnHorizon;
    MergeComplete(events, users);
    var i :| 0 <= i < |merged| && merged[i] == Joined(e, u);
    assert Days(merged[i]).Some? && Days(merged[i]).value > ChurnHorizon;
  }

  /** A user without events gets the fill values 0, 0 and 1. */
  lemma NoEventsDefaults(users: seq<User>, events: seq<Event>, id: Id)
    requires !HasEvents(events, id)
    ensures WindowCount(Merge(events, users), id, D7Window) == 0
    ensures WindowCount(Merge(events, users), id, D30Window) == 0
    ensures ChurnLabel(MaxDays(Merge(events, users), id)) == 1
  {
    var merged := Merge(events, users);
    MergeIds(events, users);
    assert forall r :: r in merged ==> r.userId != Some(id);
    WindowCountZero(merged, id, D7Window);
    WindowCountZero(merged, id, D30Window);
    assert forall i :: 0 <= i < |merged| ==> merged[i].userId != Some(id) by {
      forall i | 0 <= i < |merged| ensures merged[i].userId != Some(id) {
        assert merged[i] in merged;
      }
    }
  }

  /** Adding an orphan event (an id no users row has) leaves every metrics row as it was. */
  lemma OrphanEventIgnored(users: seq<User>, events: seq<Event>, e: Event)
    requires forall u :: u in users ==> e.userId != Some(u.userId)
    ensures Metrics(users, Merge(events + [e], users)) == Metrics(users, Merge(events, users))
  {
    var before := Merge(events, users);
    var after := Merge(events + [e], users);
    assert (events + [e])[..|events|] == events;
    assert after == before + [Unmatched(e)];
    forall i | 0 <= i < |users|
      ensures MetricsOf(users[i], after) == MetricsOf(users[i], before)
    {
      var id := users[i].userId;
      assert users[i] in users;
      assert after[..|after| - 1] == before;
      assert MaxDays(after, id) == MaxDays(before, id);
    }
  }

  /** The active users of a group are members of its cohort. */
  lemma ActiveInCohort(users: seq<User>, events: seq<Event>, cohort: int, month: int)
    ensures Active(Merge(events, users), cohort, month) <= Members(users, cohort)
  {
    var merged := Merge(events, users);
    MergeSound(events, users);
    forall id | id in Active(merged, cohort, month) ensures id in Members(users, cohort) {
      var r :| r in merged && r.cohortMonth == Some(cohort) && r.eventMonth == Some(month)
        && r.userId.Some? && r.userId.value == id;
      if e :| e in events && r == Unmatched(e) {
      } else {
        var e, u :| e in events && u in users && e.userId == Some(u.userId) && r == Joined(e, u);
        assert u.userId == id && CohortOf(u) == Some(cohort);
      }
    }
  }

  /** A group of `merged` has an active user, and the inner join with the sizes drops no group. */
  lemma GroupNonEmpty(users: seq<User>, events: seq<Event>, k: (int, int))
    requires k in Groups(Merge(events, users))
    ensures |Active(Merge(events, users), k.0, k.1)| > 0
    ensures |Members(users, k.0)| > 0
  {
    var merged := Merge(events, users);
    MergeSound(events, users);
    var r :| r in merged && r.cohortMonth.Some? && r.eventMonth.Some?
      && (r.cohortMonth.value, r.eventMonth.value) == k;
    if e :| e in events && r == Unmatched(e) {
    } else {
      var e, u :| e in events && u in users && e.userId == Some(u.userId) && r == Joined(e, u);
      assert u.userId in Active(merged, k.0, k.1);
      assert u.userId in Members(users, k.0);
    }
  }

  /** `0 < active_users <= cohort_size`, so `0 < retention_rate <= 1`. */
  lemma RetentionBounds(users: seq<User>, events: seq<Event>)
    ensures forall k :: k in Retention(users, Merge(events, users)) ==>
      && 0 < Retention(users, Merge(events, users))[k].activeUsers
           <= Retention(users, Merge(events, users))[k].cohortSize
      && 0.0 < Retention(users, Merge(events, users))[k].retentionRate <= 1.0
  {
    var merged := Merge(events, users);
    var table := Retention(users, merged);
    forall k | k in table
      ensures 0 < table[k].activeUsers <= table[k].cohortSize
      ensures 0.0 < table[k].retentionRate <= 1.0
    {
      GroupNonEmpty(users, events, k);
      ActiveInCohort(users, events, k.0, k.1);
      SubsetCard(Active(merged, k.0, k.1), Members(users, k.0));
      RateBounds(|Active(merged, k.0, k.1)|, |Members(users, k.0)|);
    }
  }

  /** A share of a non-empty whole is a rate in (0, 1]. */
  lemma RateBounds(a: nat, s: nat)
    requires 0 < a <= s
    ensures 0.0 < (a as real) / (s as real) <= 1.0
  {
    var r := (a as real) / (s as real);
    assert r * (s as real) == a as real;
  }

  /** Every matched event with both dates lands in the cohort table. */
  lemma RetentionCoversMatches(users: seq<User>, events: seq<Event>)
    ensures forall e, u :: (e in events && u in users && e.userId == Some(u.userId)
      && u.signupDate.Some? && e.eventTimestamp.Some?) ==>
        (MonthOf(u.signupDate.value), MonthOf(e.eventTimestamp.value)) in Retention(users, Merge(events, users))
  {
    var merged := Merge(events, users);
    MergeComplete(events, users);
    forall e, u | e in events && u in users && e.userId == Some(u.userId)
      && u.signupDate.Some? && e.eventTimestamp.Some?
      ensures (MonthOf(u.signupDate.value), MonthOf(e.eventTimestamp.value)) in Retention(users, merged)
    {
      var k := (MonthOf(u.signupDate.value), MonthOf(e.eventTimestamp.value));
      assert Joined(e, u) in merged;
      assert k in Groups(merged);
      GroupNonEmpty(users, events, k);
    }
  }

  /** The active users of a group of `merged` are those of the event log and the users table. */
  lemma ActiveIsMatchedUsers(users: seq<User>, events: seq<Event>, cohort: int, month: int)
    ensures Active(Merge(events, users), cohort, month) == ActiveUsersOf(users, events, cohort, month)
  {
    var merged := Merge(events, users);
    MergeSound(events, users);
    MergeComplete(events, users);
    forall id | id in Active(merged, cohort, month) ensures id in ActiveUsersOf(users, events, cohort, month) {
      var r :| r in merged && r.cohortMonth == Some(cohort) && r.eventMonth == Some(month)
        && r.userId.Some? && r.userId.value == id;
      if e :| e in events && r == Unmatched(e) {
      } else {
        var e, u :| e in events && u in users && e.userId == Some(u.userId) && r == Joined(e, u);
        assert u.userId == id;
      }
    }
    forall id | id in ActiveUsersOf(users, events, cohort, month) ensures id in Active(merged, cohort, month) {
      var e, u :| e in events && u in users && e.userId == Some(u.userId)
        && CohortOf(u) == Some(cohort) && EventMonthOf(e) == Some(month) && u.userId == id;
      assert Joined(e, u) in merged;
    }
  }

  /** The cohort table's keys are exactly the month pairs of matched events with both dates. */
  lemma RetentionKeys(users: seq<User>, events: seq<Event>)
    ensures forall k :: k in Retention(users, Merge(events, users)) <==> MatchedMonths(users, events, k)
  {
    var merged := Merge(events, users);
    RetentionCoversMatches(users, events);
    MergeSound(events, users);
    forall k | k in Retention(users, merged) ensures MatchedMonths(users, events, k) {
      var r :| r in merged && r.cohortMonth.Some? && r.eventMonth.Some?
        && (r.cohortMonth.value, r.eventMonth.value) == k;
      if e :| e in events && r == Unmatched(e) {
      } else {
        var e, u :| e in events && u in users && e.userId == Some(u.userId) && r == Joined(e, u);
        assert u.signupDate.Some? && e.eventTimestamp.Some?;
      }
    }
    forall k | MatchedMonths(users, events, k) ensures k in Retention(users, merged) {
      var e, u :| e in events && u in users && e.userId == Some(u.userId)
        && u.signupDate.Some? && e.eventTimestamp.Some?
        && k == (MonthOf(u.signupDate.value), MonthOf(e.eventTimestamp.value));
    }
  }

  /** Each cohort row holds the active users, the cohort size and their quotient. */
  lemma RetentionValues(users: seq<User>, events: seq<Event>)
    ensures forall k :: k in Retention(users, Merge(events, users)) ==>
      var row := Retention(users, Merge(events, users))[k];
      && row.activeUsers == |ActiveUsersOf(users, events, k.0, k.1)|
      && row.cohortSize == |Members(users, k.0)|
      && row.retentionRate == (row.activeUsers as real) / (row.cohortSize as real)
  {
    var merged := Merge(events, users);
    forall k | k in Retention(users, merged)
      ensures Retention(users, merged)[k].activeUsers == |ActiveUsersOf(users, events, k.0, k.1)|
    {
      ActiveIsMatchedUsers(users, events, k.0, k.1);
    }
  }

  /** The window count distributes over concatenation. */
  lemma {:induction false} WindowCountAppend(a: seq<MergedRow>, b: seq<MergedRow>, id: Id, limit: int)
    ensures WindowCount(a + b, id, limit) == WindowCount(a, id, limit) + WindowCount(b, id, limit)
    decreases |b|
  {
    if b == [] {
      assert a + b == a;
    } else {
      assert (a + b)[..|a + b| - 1] == a + b[..|b| - 1];
      WindowCountAppend(a, b[..|b| - 1], id, limit);
    }
  }

  /** The joined rows of one event in the window are its users rows of `id` within `limit` days. */
  lemma {:induction false} MatchesWindow(e: Event, users: seq<User>, id: Id, limit: int)
    ensures WindowCount(Matches(e, users), id, limit) == PairsWithin(e, users, id, limit)
    decreases |users|
  {
    if users != [] {
      MatchesWindow(e, users[1..], id, limit);
      var head := if e.userId == Some(users[0].userId) then [Joined(e, users[0])] else [];
      WindowCountAppend(head, Matches(e, users[1..]), id, limit);
      if head != [] {
        assert head[..0] == [];
      }
    }
  }

  /** An event contributes its pairs within the window, and nothing when unmatched. */
  lemma MergeEventWindow(e: Event, users: seq<User>, id: Id, limit: int)
    ensures WindowCount(MergeEvent(e, users), id, limit) == PairsWithin(e, users, id, limit)
  {
    MatchesWindow(e, users, id, limit);
    if Matches(e, users) == [] {
      assert [Unmatched(e)][..0] == [];
    }
  }

  /** `events_D7` / `events_D30` of the merge count the (event, users row) pairs within the window. */
  lemma {:induction false} WindowCountPairs(users: seq<User>, events: seq<Event>, id: Id, limit: int)
    ensures WindowCount(Merge(events, users), id, limit) == EventsWithin(users, events, id, limit)
    decreases |events|
  {
    if events != [] {
      var init := events[..|events| - 1];
      var last := events[|events| - 1];
      WindowCountPairs(users, init, id, limit);
      WindowCountAppend(Merge(init, users), MergeEvent(last, users), id, limit);
      MergeEventWindow(last, users, id, limit);
    }
  }

  /** A metrics path that does not mention the cohort file name is the output path itself. */
  lemma MetricsPathWithoutCohortFile(outCsv: string)
    requires !Occurs(outCsv, CohortFile)
    ensures ReplaceAll(outCsv, CohortFile, MetricsFile) == outCsv
  {
    ReplaceAllAbsent(outCsv, CohortFile, MetricsFile);
  }
}
