/**
 * The relational audit (etl/22_auditoria_relacional.py): how many events
 * point at a known user, how many users have events, how the valid events
 * spread over users, and the Markdown report with those totals.
 */
module AuditRelational {
  import opened Common
  import opened Frames

  datatype RelError = MissingColumn(table: string, name: string)

  /** The user id and uuid of one event row. */
  datatype EventRow = EventRow(userId: Cell, uuid: Cell)

  /** The six totals of the report, in its order. */
  datatype Totals = Totals(users: nat, events: nat, valid: nat, orphan: int, active: nat, inactive: int)

  // ---------------------------------------------------------------------
  // Valid events and active users

  function EventRows(ids: seq<Cell>, uuids: seq<Cell>): (rows: seq<EventRow>)
    requires |ids| == |uuids|
    ensures |rows| == |ids|
    ensures forall i :: 0 <= i < |ids| ==> rows[i] == EventRow(ids[i], uuids[i])
  {
    seq(|ids|, i requires 0 <= i < |ids| => EventRow(ids[i], uuids[i]))
  }

  /** `events[events["user_id"].isin(users["user_id"])]`; a null id matches a null user id, as `isin` does. */
  function ValidEvents(rows: seq<EventRow>, known: seq<Cell>): (v: seq<EventRow>)
    ensures |v| <= |rows|
    ensures forall r :: r in v <==> r in rows && r.userId in known
  {
    if rows == [] then []
    else (if rows[0].userId in known then [rows[0]] else []) + ValidEvents(rows[1..], known)
  }

  function Ids(rows: seq<EventRow>): (ids: seq<Cell>)
    ensures |ids| == |rows| && forall i :: 0 <= i < |rows| ==> ids[i] == rows[i].userId
  {
    seq(|rows|, i requires 0 <= i < |rows| => rows[i].userId)
  }

  /** `valid_events["user_id"].nunique()`. */
  function ActiveUsers(valid: seq<EventRow>): nat
  {
    |DistinctNonNull(Ids(valid))|
  }

  // ---------------------------------------------------------------------
  // Events per user

  /** The groups of `groupby("user_id")`: distinct non-null ids, in first-appearance order. */
  function GroupKeys(rows: seq<EventRow>): (ks: seq<Cell>)
    ensures forall k :: k in ks <==> k != Null && k in Ids(rows)
    ensures forall i, j :: 0 <= i < j < |ks| ==> ks[i] != ks[j]
  {
    if rows == [] then []
    else
      var init := rows[..|rows| - 1];
      var ks := GroupKeys(init);
      var x := rows[|rows| - 1].userId;
      assert forall k :: k in Ids(rows) <==> k in Ids(init) || k == x by {
        assert forall i :: 0 <= i < |init| ==> Ids(rows)[i] == Ids(init)[i];
        assert Ids(rows) == Ids(init) + [x];
      }
      if x != Null && x !in ks then ks + [x] else ks
  }

  predicate Counted(k: Cell, r: EventRow) { r.userId == k && r.uuid != Null }

  function CountedFor(k: Cell): EventRow -> bool { (r: EventRow) => Counted(k, r) }

  function CountedForAny(ks: seq<Cell>): EventRow -> bool { (r: EventRow) => r.userId in ks && r.uuid != Null }

  /** `["event_uuid"].count()` of one group: its rows with a non-null uuid. */
  function GroupCount(valid: seq<EventRow>, k: Cell): nat
  {
    Count(valid, CountedFor(k))
  }

  /** `eventos_por_usuario`, as (id, count) pairs. */
  function EventsPerUser(valid: seq<EventRow>): (per: seq<(Cell, nat)>)
    ensures |per| == |GroupKeys(valid)|
    ensures forall i :: 0 <= i < |per| ==>
      per[i].0 == GroupKeys(valid)[i] && per[i].1 == GroupCount(valid, per[i].0)
  {
    var ks := GroupKeys(valid);
    seq(|ks|, i requires 0 <= i < |ks| => (ks[i], GroupCount(valid, ks[i])))
  }

  function SumCounts(per: seq<(Cell, nat)>): nat
  {
    if per == [] then 0 else per[0].1 + SumCounts(per[1..])
  }

  // ---------------------------------------------------------------------
  // auditoria_relacional

  datatype Relational = Relational(totals: Totals, perUser: seq<(Cell, nat)>, distPath: string, lines: seq<string>)

  /** `out_md.replace(".md", "_dist.csv")`. */
  function DistPath(outMd: string): string
  {
    ReplaceAll(outMd, ".md", "_dist.csv")
  }

  function TotalsLines(t: Totals): seq<string>
  {
    ["# Auditoría Relacional — Idilio TV",
     "- Total de usuarios: " + Grouped(t.users),
     "- Total de eventos: " + Grouped(t.events),
     "- Eventos válidos (con user_id existente): " + Grouped(t.valid),
     "- Eventos huérfanos (sin user_id en usuarios): " + SignedGrouped(t.orphan),
     "- Usuarios activos (con eventos): " + Grouped(t.active),
     "- Usuarios sin eventos: " + SignedGrouped(t.inactive)]
  }

  const DistHeader: seq<string> := [
    "\n## Distribución de eventos por usuario (resumen)",
    "| Métrica | Valor |",
    "|----------|--------|"]

  function StatLine(s: (string, string)): string
  {
    "| " + s.0 + " | " + s.1 + " |"
  }

  /** The report; `desc` holds the rendered `describe()` statistics of the per-user counts. */
  function Report(t: Totals, desc: seq<(string, string)>): seq<string>
  {
    TotalsLines(t) + DistHeader + seq(|desc|, i requires 0 <= i < |desc| => StatLine(desc[i]))
  }

  /** The append sequence that builds `lines`. */
  method BuildReport(t: Totals, desc: seq<(string, string)>) returns (lines: seq<string>)
    ensures lines == Report(t, desc)
  {
    lines := TotalsLines(t) + DistHeader;
    ghost var head := lines;
    for i := 0 to |desc|
      invariant lines == head + seq(i, j requires 0 <= j < i => StatLine(desc[j]))
    {
      lines := lines + [StatLine(desc[i])];
    }
  }

  /** The three columns the audit reads. */
  predicate HasIdColumns(users: Table, events: Table)
  {
    HasColumn(events, "user_id") && HasColumn(users, "user_id") && HasColumn(events, "event_uuid")
  }

  /** `valid_events`: the event rows whose user id is among the users' ids. */
  function Valid(users: Table, events: Table): seq<EventRow>
    requires WellFormed(users) && WellFormed(events) && HasIdColumns(users, events)
  {
    GetOfMember(events, IndexOf(events.cols, "user_id"));
    GetOfMember(events, IndexOf(events.cols, "event_uuid"));
    var rows := EventRows(Get(events, "user_id").cells, Get(events, "event_uuid").cells);
    ValidEvents(rows, Get(users, "user_id").cells)
  }

  /** The six totals of the report. */
  function TotalsOf(users: Table, events: Table): Totals
    requires WellFormed(users) && WellFormed(events) && HasIdColumns(users, events)
  {
    var valid := Valid(users, events);
    var active := ActiveUsers(valid);
    Totals(users.height, events.height, |valid|, events.height - |valid|, active, users.height - active)
  }

  function Relate(users: Table, events: Table, outMd: string, desc: seq<(string, string)>): Result<Relational, RelError>
    requires WellFormed(users) && WellFormed(events)
  {
    if !HasColumn(events, "user_id") then Err(MissingColumn("events", "user_id"))
    else if !HasColumn(users, "user_id") then Err(MissingColumn("users", "user_id"))
    else if !HasColumn(events, "event_uuid") then Err(MissingColumn("events", "event_uuid"))
    else
      var totals := TotalsOf(users, events);
      Ok(Relational(totals, EventsPerUser(Valid(users, events)), DistPath(outMd), Report(totals, desc)))
  }

  method AuditRelational(users: Table, events: Table, outMd: string, desc: seq<(string, string)>)
    returns (r: Result<Relational, RelError>)
    requires WellFormed(users) && WellFormed(events)
    ensures r == Relate(users, events, outMd, desc)
  {
    if !HasColumn(events, "user_id") {
      return Err(MissingColumn("events", "user_id"));
    }
    if !HasColumn(users, "user_id") {
      return Err(MissingColumn("users", "user_id"));
    }
    if !HasColumn(events, "event_uuid") {
      return Err(MissingColumn("events", "event_uuid"));
    }
    var valid := Valid(users, events);
    var totals := TotalsOf(users, events);
    var lines := BuildReport(totals, desc);
    r := Ok(Relational(totals, EventsPerUser(valid), DistPath(outMd), lines));
  }

  // ---------------------------------------------------------------------
  // What the audit promises

  /**
   * Valid and orphan events add up to all events, and the orphans are the
   * events whose user id is absent from users.
   */
  lemma ValidPlusOrphan(users: Table, events: Table, outMd: string, desc: seq<(string, string)>)
    requires WellFormed(users) && WellFormed(events)
    requires Relate(users, events, outMd, desc).Ok?
    ensures var t := Relate(users, events, outMd, desc).value.totals;
      && t.valid + t.orphan == t.events
      && t.orphan >= 0
      && t.orphan == Count(Get(events, "user_id").cells, (c: Cell) => c !in Get(users, "user_id").cells)
  {
    GetOfMember(events, IndexOf(events.cols, "user_id"));
    GetOfMember(events, IndexOf(events.cols, "event_uuid"));
    var ids := Get(events, "user_id").cells;
    var known := Get(users, "user_id").cells;
    var rows := EventRows(ids, Get(events, "event_uuid").cells);
    ValidCountMatches(rows, known);
    CountComplement(ids, (c: Cell) => c in known, (c: Cell) => c !in known);
    CountMapped(rows, ids, (r: EventRow) => r.userId in known, (c: Cell) => c in known);
  }

  lemma {:induction false} ValidCountMatches(rows: seq<EventRow>, known: seq<Cell>)
    ensures |ValidEvents(rows, known)| == Count(rows, (r: EventRow) => r.userId in known)
  {
    if rows != [] {
      ValidCountMatches(rows[1..], known);
    }
  }

  /**
   * Active users are the distinct non-null ids among valid events; there are
   * never more of them than users rows, so "Usuarios sin eventos" is never
   * negative.
   */
  lemma ActiveAtMostUsers(users: Table, events: Table, outMd: string, desc: seq<(string, string)>)
    requires WellFormed(users) && WellFormed(events)
    requires Relate(users, events, outMd, desc).Ok?
    ensures var t := Relate(users, events, outMd, desc).value.totals;
      && t.active <= t.users
      && t.inactive >= 0
      && t.active + t.inactive == t.users
  {
    GetOfMember(events, IndexOf(events.cols, "user_id"));
    GetOfMember(events, IndexOf(events.cols, "event_uuid"));
    GetOfMember(users, IndexOf(users.cols, "user_id"));
    var known := Get(users, "user_id").cells;
    var rows := EventRows(Get(events, "user_id").cells, Get(events, "event_uuid").cells);
    var valid := ValidEvents(rows, known);
    assert DistinctNonNull(Ids(valid)) <= DistinctNonNull(known) by {
      forall c | c in DistinctNonNull(Ids(valid)) ensures c in DistinctNonNull(known) {
        var i :| 0 <= i < |valid| && Ids(valid)[i] == c;
        assert valid[i] in valid;
      }
    }
    SubsetCard(DistinctNonNull(Ids(valid)), DistinctNonNull(known));
    DistinctBound(known);
  }

  /** There is one group per active user. */
  lemma GroupsAreActiveUsers(valid: seq<EventRow>)
    ensures |EventsPerUser(valid)| == ActiveUsers(valid)
  {
    var ks := GroupKeys(valid);
    assert (set k | k in ks) == DistinctNonNull(Ids(valid));
    DistinctSeqCard(ks);
  }

  lemma {:induction false} DistinctSeqCard(ks: seq<Cell>)
    requires forall i, j :: 0 <= i < j < |ks| ==> ks[i] != ks[j]
    ensures |set k | k in ks| == |ks|
  {
    if ks != [] {
      var rest := ks[1..];
      DistinctSeqCard(rest);
      assert (set k | k in ks) == (set k | k in rest) + {ks[0]};
      assert ks[0] !in rest;
    }
  }

  /** The per-user counts cover each valid event with a uuid at most once: their sum is at most the valid events. */
  lemma PerUserSumBounded(valid: seq<EventRow>)
    ensures SumCounts(EventsPerUser(valid)) <= |valid|
  {
    var ks := GroupKeys(valid);
    SumOfDistinct(valid, ks, EventsPerUser(valid));
  }

  lemma {:induction false} SumOfDistinct(valid: seq<EventRow>, ks: seq<Cell>, per: seq<(Cell, nat)>)
    requires forall i, j :: 0 <= i < j < |ks| ==> ks[i] != ks[j]
    requires |per| == |ks|
    requires forall i :: 0 <= i < |per| ==> per[i].1 == GroupCount(valid, ks[i])
    ensures SumCounts(per) == Count(valid, CountedForAny(ks))
  {
    if ks == [] {
      CountZero(valid, CountedForAny(ks));
    } else {
      var rest := ks[1..];
      assert forall i :: 0 <= i < |rest| ==> rest[i] == ks[i + 1];
      SumOfDistinct(valid, rest, per[1..]);
      CountDisjointUnion(valid, CountedFor(ks[0]), CountedForAny(rest), CountedForAny(ks));
    }
  }

  /** A report path ending in ".md", with no other ".md", gets "_dist.csv" in its place. */
  lemma DistPathSuffix(stem: string)
    requires forall i: nat :: i < |stem| ==> !OccursAt(stem + ".md", ".md", i)
    ensures DistPath(stem + ".md") == stem + "_dist.csv"
  {
    ReplaceAllSuffix(stem, ".md", "_dist.csv");
  }

  /** The six totals come first, in a fixed order, then the distribution table. */
  lemma ReportOrder(t: Totals, desc: seq<(string, string)>)
    ensures |Report(t, desc)| == 10 + |desc|
    ensures Report(t, desc)[1] == "- Total de usuarios: " + Grouped(t.users)
    ensures Report(t, desc)[2] == "- Total de eventos: " + Grouped(t.events)
    ensures Report(t, desc)[3] == "- Eventos válidos (con user_id existente): " + Grouped(t.valid)
    ensures Report(t, desc)[4] == "- Eventos huérfanos (sin user_id en usuarios): " + SignedGrouped(t.orphan)
    ensures Report(t, desc)[5] == "- Usuarios activos (con eventos): " + Grouped(t.active)
    ensures Report(t, desc)[6] == "- Usuarios sin eventos: " + SignedGrouped(t.inactive)
    ensures forall i :: 0 <= i < |desc| ==> Report(t, desc)[10 + i] == StatLine(desc[i])
  {
  }

  /** The audit fails on the first id column it reads that is absent. */
  lemma RelateErrors(users: Table, events: Table, outMd: string, desc: seq<(string, string)>)
    requires WellFormed(users) && WellFormed(events)
    ensures !HasColumn(events, "user_id") ==> Relate(users, events, outMd, desc) == Err(MissingColumn("events", "user_id"))
    ensures Relate(users, events, outMd, desc).Ok? <==>
      HasColumn(events, "user_id") && HasColumn(users, "user_id") && HasColumn(events, "event_uuid")
  {
  }
}
