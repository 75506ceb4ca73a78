/**
 * `generate_features` (etl/features/30_generate_features.py): per user the
 * recency against the latest event of the whole log, the number of events
 * and of distinct event types, left-joined onto the users table and filled
 * with sentinel values for users without events.
 */
module GenerateFeatures {
  import opened Common
  import opened Records

  /** A row of the feature store: the user row and the three features. */
  datatype FeatureRow = FeatureRow(user: User, eventCount: nat, recencyDays: int, uniqueEventTypes: nat)

  /** A row right after the three left joins: a feature is null when the user has no group. */
  datatype JoinedRow = JoinedRow(user: User, eventCount: Option<nat>, recencyDays: Option<int>, uniqueEventTypes: Option<nat>)

  const NoRecency: int := 9999

  /** The events of one user (one `groupby("user_id")` group), in log order. */
  function OfUser(events: seq<Event>, id: Id): (r: seq<Event>)
    ensures forall e :: e in r <==> e in events && e.userId == Some(id)
    ensures |r| <= |events|
  {
    if events == [] then []
    else (if events[0].userId == Some(id) then [events[0]] else []) + OfUser(events[1..], id)
  }

  /** The user's group is not empty: some event carries the id. */
  predicate HasEvents(events: seq<Event>, id: Id)
  {
    OfUser(events, id) != []
  }

  function Timestamps(events: seq<Event>): (ts: seq<Option<int>>)
    ensures |ts| == |events|
    ensures forall i :: 0 <= i < |events| ==> ts[i] == events[i].eventTimestamp
  {
    seq(|events|, i requires 0 <= i < |events| => events[i].eventTimestamp)
  }

  /** `events["event_timestamp"].max()`, over every event including orphans. */
  function MaxDate(events: seq<Event>): Option<int>
  {
    MaxOf(Timestamps(events))
  }

  /** `groupby("user_id")["event_timestamp"].max()` of one user. */
  function LastEvent(events: seq<Event>, id: Id): Option<int>
  {
    MaxOf(Timestamps(OfUser(events, id)))
  }

  predicate HasUuid(e: Event) { e.eventUuid.Some? }

  /** `groupby("user_id")["event_uuid"].count()` of one user: non-null uuids. */
  function EventCount(events: seq<Event>, id: Id): nat
  {
    Count(OfUser(events, id), HasUuid)
  }

  /** The distinct non-null event types of some events. */
  function TypesOf(events: seq<Event>): set<string>
  {
    set e | e in events && e.eventType.Some? :: e.eventType.value
  }

  /** `groupby("user_id")["event_type"].nunique()` of one user. */
  function UniqueTypes(events: seq<Event>, id: Id): nat
  {
    |TypesOf(OfUser(events, id))|
  }

  /** `(later - earlier).dt.days`: null when either timestamp is. */
  function DaysBetween(later: Option<int>, earlier: Option<int>): Option<int>
  {
    if later.Some? && earlier.Some? then Some(WholeDays(later.value - earlier.value)) else None
  }

  /** `recency_days` before the fill: null when the user's timestamps are all null. */
  function Recency(events: seq<Event>, id: Id): Option<int>
  {
    DaysBetween(MaxDate(events), LastEvent(events, id))
  }

  /** The three left joins: a user without a group gets null features. */
  function Join(u: User, events: seq<Event>): JoinedRow
  {
    if HasEvents(events, u.userId) then
      JoinedRow(u, Some(EventCount(events, u.userId)), Recency(events, u.userId), Some(UniqueTypes(events, u.userId)))
    else JoinedRow(u, None, None, None)
  }

  /** `fillna({"event_count": 0, "recency_days": 9999, "unique_event_types": 0})`. */
  function Fill(r: JoinedRow): FeatureRow
  {
    FeatureRow(r.user,
      if r.eventCount.Some? then r.eventCount.value else 0,
      if r.recencyDays.Some? then r.recencyDays.value else NoRecency,
      if r.uniqueEventTypes.Some? then r.uniqueEventTypes.value else 0)
  }

  /** The feature store: one row per users row, in users order, every user column kept. */
  function GenerateFeatures(users: seq<User>, events: seq<Event>): (f: seq<FeatureRow>)
    ensures |f| == |users|
    ensures forall i :: 0 <= i < |users| ==> f[i].user == users[i]
  {
    seq(|users|, i requires 0 <= i < |users| => Fill(Join(users[i], events)))
  }

  // ---------------------------------------------------------------------
  // Lemmas

  /** A user's last event is no later than the latest event of the log. */
  lemma LastEventBounded(events: seq<Event>, id: Id)
    ensures LastEvent(events, id).Some? ==>
      MaxDate(events).Some? && LastEvent(events, id).value <= MaxDate(events).value
  {
    var last := LastEvent(events, id);
    if last.Some? {
      var mine := OfUser(events, id);
      var k :| 0 <= k < |mine| && Timestamps(mine)[k] == last;
      assert mine[k] in events;
      var j :| 0 <= j < |events| && events[j] == mine[k];
      assert Timestamps(events)[j] == last;
    }
  }

  /** `recency_days` is never negative. */
  lemma RecencyNonNegative(users: seq<User>, events: seq<Event>)
    ensures forall i :: 0 <= i < |users| ==> GenerateFeatures(users, events)[i].recencyDays >= 0
  {
    forall i | 0 <= i < |users| ensures GenerateFeatures(users, events)[i].recencyDays >= 0 {
      LastEventBounded(events, users[i].userId);
    }
  }

  /**
   * Recency measures from the user's latest event: it is at most the days
   * since any of the user's timestamps, and equal for one of them.
   */
  lemma RecencyFromLatestEvent(events: seq<Event>, id: Id)
    ensures Recency(events, id).Some? ==>
      && (forall e :: e in events && e.userId == Some(id) && e.eventTimestamp.Some? ==>
            Recency(events, id).value <= WholeDays(MaxDate(events).value - e.eventTimestamp.value))
      && (exists e :: e in events && e.userId == Some(id) && e.eventTimestamp.Some? &&
            Recency(events, id).value == WholeDays(MaxDate(events).value - e.eventTimestamp.value))
  {
    var mine := OfUser(events, id);
    var last := LastEvent(events, id);
    if last.Some? {
      LastEventBounded(events, id);
      var max := MaxDate(events).value;
      forall e | e in events && e.userId == Some(id) && e.eventTimestamp.Some?
        ensures Recency(events, id).value <= WholeDays(max - e.eventTimestamp.value)
      {
        var k :| 0 <= k < |mine| && mine[k] == e;
        assert Timestamps(mine)[k] == e.eventTimestamp;
        WholeDaysMonotone(max - last.value, max - e.eventTimestamp.value);
      }
      var k :| 0 <= k < |mine| && Timestamps(mine)[k] == last;
      assert mine[k] in mine;
    }
  }

  lemma WholeDaysMonotone(a: int, b: int)
    requires a <= b
    ensures WholeDays(a) <= WholeDays(b)
  {
  }

  /** A user without events gets 0 events, recency 9999 and 0 event types. */
  lemma NoEventsDefaults(users: seq<User>, events: seq<Event>, i: nat)
    requires i < |users| && !HasEvents(events, users[i].userId)
    ensures GenerateFeatures(users, events)[i].eventCount == 0
    ensures GenerateFeatures(users, events)[i].recencyDays == NoRecency
    ensures GenerateFeatures(users, events)[i].uniqueEventTypes == 0
  {
  }

  /**
   * Every feature row, with or without events: the count of non-null uuids,
   * the distinct types, and the recency with 9999 for a missing one; with no
   * null uuid in the log, the distinct types never exceed the events.
   */
  lemma FeatureRowMeaning(users: seq<User>, events: seq<Event>, i: nat)
    requires i < |users|
    ensures var f := GenerateFeatures(users, events)[i]; var id := users[i].userId;
      && f.eventCount == EventCount(events, id)
      && f.uniqueEventTypes == UniqueTypes(events, id)
      && f.recencyDays == (if Recency(events, id).Some? then Recency(events, id).value else NoRecency)
      && ((forall e :: e in events ==> e.eventUuid.Some?) ==> f.uniqueEventTypes <= f.eventCount)
  {
    var id := users[i].userId;
    if !HasEvents(events, id) {
      OfUserNone(events, id);
    }
    if forall e :: e in events ==> e.eventUuid.Some? {
      UniqueTypesAtMostCount(events, id);
    }
  }

  /** With every uuid present, a user has no more distinct types than events. */
  lemma UniqueTypesAtMostCount(events: seq<Event>, id: Id)
    requires forall e :: e in events ==> e.eventUuid.Some?
    ensures UniqueTypes(events, id) <= EventCount(events, id)
  {
    var mine := OfUser(events, id);
    TypesAtMostEvents(mine);
    CountAll(mine);
  }

  lemma {:induction false} TypesAtMostEvents(events: seq<Event>)
    ensures |TypesOf(events)| <= |events|
  {
    if events != [] {
      var rest := events[1..];
      TypesAtMostEvents(rest);
      var extra: set<string> := if events[0].eventType.Some? then {events[0].eventType.value} else {};
      assert TypesOf(events) == TypesOf(rest) + extra by {
        forall t | t in TypesOf(events) ensures t in TypesOf(rest) + extra {
          var e :| e in events && e.eventType.Some? && e.eventType.value == t;
          if e != events[0] {
            var j :| 0 <= j < |events| && events[j] == e;
            assert rest[j - 1] == e;
          }
        }
      }
    }
  }

  lemma {:induction false} CountAll(events: seq<Event>)
    requires forall e :: e in events ==> e.eventUuid.Some?
    ensures Count(events, HasUuid) == |events|
  {
    if events != [] {
      assert forall e :: e in events[1..] ==> e in events;
      CountAll(events[1..]);
    }
  }

  /** Events of ids no users row has change no row of the feature store. */
  lemma OrphanEventsIgnored(users: seq<User>, events: seq<Event>, orphans: seq<Event>)
    requires forall e, u :: e in orphans && u in users ==> e.userId != Some(u.userId)
    requires forall e :: e in orphans ==> e.eventTimestamp.Some? ==>
      MaxDate(events).Some? && e.eventTimestamp.value <= MaxDate(events).value
    ensures GenerateFeatures(users, events + orphans) == GenerateFeatures(users, events)
  {
    forall i | 0 <= i < |users|
      ensures GenerateFeatures(users, events + orphans)[i] == GenerateFeatures(users, events)[i]
    {
      assert users[i] in users;
      OrphanEventsIgnoredBy(users[i], events, orphans);
    }
  }

  lemma OrphanEventsIgnoredBy(u: User, events: seq<Event>, orphans: seq<Event>)
    requires forall e :: e in orphans ==> e.userId != Some(u.userId)
    requires forall e :: e in orphans ==> e.eventTimestamp.Some? ==>
      MaxDate(events).Some? && e.eventTimestamp.value <= MaxDate(events).value
    ensures Join(u, events + orphans) == Join(u, events)
  {
    var all := events + orphans;
    var id := u.userId;
    OfUserAppend(events, orphans, id);
    MaxDateAppend(events, orphans);
    assert LastEvent(all, id) == LastEvent(events, id);
  }

  lemma {:induction false} OfUserAppend(events: seq<Event>, more: seq<Event>, id: Id)
    requires forall e :: e in more ==> e.userId != Some(id)
    ensures OfUser(events + more, id) == OfUser(events, id)
  {
    if events == [] {
      assert events + more == more;
      OfUserNone(more, id);
    } else {
      assert (events + more)[1..] == events[1..] + more;
      OfUserAppend(events[1..], more, id);
    }
  }

  lemma {:induction false} OfUserNone(events: seq<Event>, id: Id)
    requires forall e :: e in events ==> e.userId != Some(id)
    ensures OfUser(events, id) == []
  {
    if events != [] {
      assert forall e :: e in events[1..] ==> e in events;
      OfUserNone(events[1..], id);
    }
  }

  /** Later events no later than the current maximum leave it where it is. */
  lemma MaxDateAppend(events: seq<Event>, more: seq<Event>)
    requires forall e :: e in more ==> e.eventTimestamp.Some? ==>
      MaxDate(events).Some? && e.eventTimestamp.value <= MaxDate(events).value
    ensures MaxDate(events + more) == MaxDate(events)
  {
    var all := Timestamps(events + more);
    var m := MaxDate(events);
    var n := MaxDate(events + more);
    if m.Some? {
      var j :| 0 <= j < |events| && Timestamps(events)[j] == m;
      assert all[j] == m;
    }
    if n.Some? {
      var j :| 0 <= j < |all| && all[j] == n;
      if j < |events| {
        assert Timestamps(events)[j] == n;
      } else {
        assert (events + more)[j] in more;
      }
    }
    forall j | 0 <= j < |events| && Timestamps(events)[j].Some?
      ensures Timestamps(events)[j].value <= n.value
    {
      assert all[j] == Timestamps(events)[j];
    }
  }
}
