/**
 * `validate_events` (etl/02_clean_events.py): checks the required columns,
 * counts nulls, drops rows without an event uuid, keeps per uuid the row
 * with the earliest timestamp, and counts the two ingestion anomalies on
 * what is left. The issue report is filled step by step in the order the
 * checks run.
 */
module CleanEvents {
  import opened Common
  import opened Sorting
  import opened Records

  /**
   * A raw events row: the typed columns the validator reads, already parsed
   * (`None` is a missing or unparseable value), and every other column by name.
   * `createdAt`/`receivedAt` are `None` as well when the frame lacks the column.
   */
  datatype EventRow = EventRow(
    eventUuid: Option<string>,
    userId: Option<Id>,
    eventType: Option<string>,
    eventTimestamp: Option<int>,
    createdAt: Option<int>,
    receivedAt: Option<int>,
    others: map<string, string>)

  datatype EventsFrame = EventsFrame(columns: seq<string>, rows: seq<EventRow>)

  /**
   * The issue report: either only the missing required columns, or the
   * counters in the order the checks add them; the two anomaly counters are
   * absent when their columns are.
   */
  datatype EventIssues =
    | MissingColumns(missingColumns: seq<string>)
    | Checked(
        nullEventUuid: nat,
        nullUserId: nat,
        nullEventTimestamp: nat,
        duplicatesRemoved: nat,
        receivedBeforeEvent: Option<nat>,
        createdBeforeReceived: Option<nat>)

  const Required: seq<string> := ["event_uuid", "user_id", "event_type", "event_timestamp"]
  const ReceivedAt: string := "received_at"
  const CreatedAt: string := "created_at"

  predicate NullUuid(r: EventRow) { r.eventUuid.None? }
  predicate NullUser(r: EventRow) { r.userId.None? }
  predicate NullTimestamp(r: EventRow) { r.eventTimestamp.None? }

  /** `received_at < event_timestamp` (false when either is NaT). */
  predicate ReceivedEarly(r: EventRow)
  {
    r.receivedAt.Some? && r.eventTimestamp.Some? && r.receivedAt.value < r.eventTimestamp.value
  }

  /** `created_at > received_at` (false when either is NaT). */
  predicate CreatedLate(r: EventRow)
  {
    r.createdAt.Some? && r.receivedAt.Some? && r.createdAt.value > r.receivedAt.value
  }

  /** `df[~df["event_uuid"].isna()]`. */
  function DropNullUuids(rows: seq<EventRow>): (r: seq<EventRow>)
    ensures forall x :: x in r <==> x in rows && x.eventUuid.Some?
    ensures |r| + Count(rows, NullUuid) == |rows|
  {
    if rows == [] then []
    else (if rows[0].eventUuid.Some? then [rows[0]] else []) + DropNullUuids(rows[1..])
  }

  /** Ascending strings with nulls last, strict. */
  predicate UuidBefore(a: Option<string>, b: Option<string>)
  {
    (a.Some? && b.None?) || (a.Some? && b.Some? && StrLe(a.value, b.value) && a.value != b.value)
  }

  /** Ascending timestamps with NaT last, non-strict. */
  predicate EarliestFirst(a: Option<int>, b: Option<int>)
  {
    b.None? || (a.Some? && a.value <= b.value)
  }

  /** `sort_values(by=["event_uuid", "event_timestamp"])`. */
  predicate RowLe(a: EventRow, b: EventRow)
  {
    UuidBefore(a.eventUuid, b.eventUuid) || (a.eventUuid == b.eventUuid && EarliestFirst(a.eventTimestamp, b.eventTimestamp))
  }

  function UuidKey(r: EventRow): Option<string> { r.eventUuid }

  /** Sort, then `drop_duplicates(subset=["event_uuid"], keep="first")`. */
  function Deduplicate(rows: seq<EventRow>): seq<EventRow>
  {
    KeepFirst(SortBy(rows, RowLe), UuidKey)
  }

  /** The rows `validate_events` returns when no required column is missing. */
  function CleanRows(df: EventsFrame): seq<EventRow>
  {
    Deduplicate(DropNullUuids(df.rows))
  }

  /**
   * `rows` is a deduplication of `raw`: every uuid present, once, ascending;
   * each row one of `raw`; every uuid of `raw` survives, on its earliest row.
   */
  ghost predicate Deduplicated(raw: seq<EventRow>, rows: seq<EventRow>)
  {
    && UniqueAscendingUuids(rows)
    && KeptFrom(raw, rows)
    && KeepsEveryUuid(raw, rows)
    && KeepsEarliest(raw, rows)
  }

  ghost predicate UniqueAscendingUuids(rows: seq<EventRow>)
  {
    && (forall i :: 0 <= i < |rows| ==> rows[i].eventUuid.Some?)
    && (forall i, j :: 0 <= i < j < |rows| ==> UuidBefore(rows[i].eventUuid, rows[j].eventUuid))
  }

  ghost predicate KeptFrom(raw: seq<EventRow>, rows: seq<EventRow>)
  {
    forall r :: r in rows ==> r in raw
  }

  ghost predicate KeepsEveryUuid(raw: seq<EventRow>, rows: seq<EventRow>)
  {
    forall x :: x in raw && x.eventUuid.Some? ==> exists r :: r in rows && r.eventUuid == x.eventUuid
  }

  ghost predicate KeepsEarliest(raw: seq<EventRow>, rows: seq<EventRow>)
  {
    forall r, x :: r in rows && x in raw && x.eventUuid == r.eventUuid ==>
      EarliestFirst(r.eventTimestamp, x.eventTimestamp)
  }

  method ValidateEvents(df: EventsFrame) returns (out: EventsFrame, issues: EventIssues)
    // Missing required columns: the input comes back as it was, with the missing names in order.
    ensures Missing(Required, df.columns) != [] ==>
      out == df && issues == MissingColumns(Missing(Required, df.columns))
    // Otherwise the null counts are the input's; `duplicatesRemoved` is every row removed,
    // the null-uuid rows among them; the anomalies are counted on the returned rows only
    // when their columns exist.
    ensures Missing(Required, df.columns) == [] ==>
      && out.columns == df.columns
      && issues.Checked?
      && issues.nullEventUuid == Count(df.rows, NullUuid)
      && issues.nullUserId == Count(df.rows, NullUser)
      && issues.nullEventTimestamp == Count(df.rows, NullTimestamp)
      && issues.duplicatesRemoved + |out.rows| == |df.rows|
      && issues.duplicatesRemoved >= issues.nullEventUuid
      && issues.receivedBeforeEvent ==
           (if ReceivedAt in df.columns then Some(Count(out.rows, ReceivedEarly)) else None)
      && issues.createdBeforeReceived ==
           (if CreatedAt in df.columns && ReceivedAt in df.columns
            then Some(Count(out.rows, CreatedLate)) else None)
    ensures Missing(Required, df.columns) == [] ==> Deduplicated(df.rows, out.rows)
  {
    var missing := Missing(Required, df.columns);
    if missing != [] {
      out := df;
      issues := MissingColumns(missing);
      return;
    }

    var nullEventUuid := Count(df.rows, NullUuid);
    var nullUserId := Count(df.rows, NullUser);
    var nullEventTimestamp := Count(df.rows, NullTimestamp);

    var before := |df.rows|;
    var kept := DropNullUuids(df.rows);
    var sorted := SortBy(kept, RowLe);
    var deduped := KeepFirst(sorted, UuidKey);
    var duplicatesRemoved := before - |deduped|;

    var receivedBeforeEvent: Option<nat> := None;
    if ReceivedAt in df.columns {
      receivedBeforeEvent := Some(Count(deduped, ReceivedEarly));
    }
    var createdBeforeReceived: Option<nat> := None;
    if CreatedAt in df.columns && ReceivedAt in df.columns {
      createdBeforeReceived := Some(Count(deduped, CreatedLate));
    }

    issues := Checked(nullEventUuid, nullUserId, nullEventTimestamp, duplicatesRemoved,
      receivedBeforeEvent, createdBeforeReceived);
    out := df.(rows := deduped);
    CleanRowsFacts(df.rows);
  }

  // ---------------------------------------------------------------------
  // Lemmas

  /** Dropping null uuids and deduplicating yields everything `Deduplicated` lists. */
  lemma CleanRowsFacts(raw: seq<EventRow>)
    ensures Deduplicated(raw, Deduplicate(DropNullUuids(raw)))
  {
    var rows := DropNullUuids(raw);
    var d := Deduplicate(rows);
    DeduplicateAscending(rows);
    assert UniqueAscendingUuids(d);
    DeduplicateKept(raw);
    DeduplicateCovers(raw);
    DeduplicateEarliestOf(raw);
  }

  /** Deduplication only keeps rows it was given. */
  lemma DeduplicateKept(raw: seq<EventRow>)
    ensures KeptFrom(raw, Deduplicate(DropNullUuids(raw)))
  {
    SortKeepFirstMembers(DropNullUuids(raw), RowLe, UuidKey);
  }

  /** Every non-null uuid survives deduplication. */
  lemma DeduplicateCovers(raw: seq<EventRow>)
    ensures KeepsEveryUuid(raw, Deduplicate(DropNullUuids(raw)))
  {
    var rows := DropNullUuids(raw);
    var d := Deduplicate(rows);
    forall x | x in raw && x.eventUuid.Some? ensures exists r :: r in d && r.eventUuid == x.eventUuid {
      assert x in rows;
      SortKeepFirstCovers(rows, RowLe, UuidKey);
    }
  }

  /** The survivor of a uuid is its earliest row among all input rows. */
  lemma DeduplicateEarliestOf(raw: seq<EventRow>)
    ensures KeepsEarliest(raw, Deduplicate(DropNullUuids(raw)))
  {
    var rows := DropNullUuids(raw);
    var d := Deduplicate(rows);
    SortKeepFirstMembers(rows, RowLe, UuidKey);
    DeduplicateEarliest(rows);
    forall r, x | r in d && x in raw && x.eventUuid == r.eventUuid
      ensures EarliestFirst(r.eventTimestamp, x.eventTimestamp)
    {
      assert r in rows;
      assert x in rows;
    }
  }

  /** Each kept row has the earliest timestamp of all rows sharing its uuid. */
  lemma DeduplicateEarliest(rows: seq<EventRow>)
    ensures forall r, x :: r in Deduplicate(rows) && x in rows && x.eventUuid == r.eventUuid ==>
      EarliestFirst(r.eventTimestamp, x.eventTimestamp)
  {
    var d := Deduplicate(rows);
    RowLeTotalPreorder();
    SortKeepFirstLeast(rows, RowLe, UuidKey);
    forall r, x | r in d && x in rows && x.eventUuid == r.eventUuid
      ensures EarliestFirst(r.eventTimestamp, x.eventTimestamp)
    {
      assert RowLe(r, x);
    }
  }

  /** Over rows that all have a uuid, the deduplicated uuids strictly ascend. */
  lemma DeduplicateAscending(rows: seq<EventRow>)
    requires forall x :: x in rows ==> x.eventUuid.Some?
    ensures forall i :: 0 <= i < |Deduplicate(rows)| ==> Deduplicate(rows)[i].eventUuid.Some?
    ensures forall i, j :: 0 <= i < j < |Deduplicate(rows)| ==>
      UuidBefore(Deduplicate(rows)[i].eventUuid, Deduplicate(rows)[j].eventUuid)
  {
    var d := Deduplicate(rows);
    assert forall i :: 0 <= i < |d| ==> d[i] in d;
    SortKeepFirstMembers(rows, RowLe, UuidKey);
    RowLeTotalPreorder();
    SortKeepFirstLeast(rows, RowLe, UuidKey);
    forall i, j | 0 <= i < j < |d| ensures UuidBefore(d[i].eventUuid, d[j].eventUuid) {
      assert RowLe(d[i], d[j]);
      assert d[i].eventUuid != d[j].eventUuid;
    }
  }

  lemma RowLeTotalPreorder()
    ensures TotalPreorder(RowLe)
  {
    forall a, b ensures RowLe(a, b) || RowLe(b, a) {
      if a.eventUuid.Some? && b.eventUuid.Some? {
        StrLeTotal(a.eventUuid.value, b.eventUuid.value);
      }
    }
    forall a, b, c | RowLe(a, b) && RowLe(b, c) ensures RowLe(a, c) {
      if a.eventUuid.Some? && b.eventUuid.Some? && c.eventUuid.Some? {
        var x, y, z := a.eventUuid.value, b.eventUuid.value, c.eventUuid.value;
        if StrLe(x, y) && StrLe(y, z) {
          StrLeTransitive(x, y, z);
          if x == z && x != y {
            StrLeAntisymmetric(x, y);
          }
        }
      }
    }
  }
}
