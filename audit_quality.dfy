/**
 * The data-quality audit (etl/20_auditoria_calidad.py): completeness,
 * uniqueness, referential and temporal counters over the cleaned users and
 * events tables, the cardinality of four domain columns, and the Markdown
 * report that lists them.
 */
module AuditQuality {
  import opened Common
  import opened Frames

  datatype AuditError =
    | MissingColumn(table: string, name: string)   // a column the counters read is absent
    | MissingDateColumn(table: string, name: string) // the read with `parse_dates` refuses the file

  /** One row of the quantitative table. */
  datatype Metric = Metric(name: string, value: int)

  /** One row of the cardinality table. */
  datatype Cardinality = Cardinality(column: string, distinct: nat)

  const UserDates: seq<string> := ["signup_date", "last_active_date"]
  const EventDates: seq<string> := ["event_timestamp", "created_at", "received_at"]
  const DomainColumns: seq<string> := ["country", "device", "subscription_type", "event_type"]

  // ---------------------------------------------------------------------
  // The counters

  /** `total - col.nunique()`: rows minus distinct non-null values. */
  function Duplicates(t: Table, name: string): int
    requires HasColumn(t, name)
  {
    t.height - |DistinctNonNull(Get(t, name).cells)|
  }

  function InList(known: seq<Cell>): Cell -> bool
  {
    (c: Cell) => c in known
  }

  function NotInList(known: seq<Cell>): Cell -> bool
  {
    (c: Cell) => c !in known
  }

  /** `ids.isin(known).sum()`; a null id matches a null in `known`, as pandas' `isin` does. */
  function ValidCount(ids: seq<Cell>, known: seq<Cell>): nat
  {
    Count(ids, InList(known))
  }

  /** `(a < b).sum()` over aligned columns; a null on either side never counts. */
  function LessCount(a: seq<Cell>, b: seq<Cell>): (n: nat)
    ensures n <= |a| && n <= |b|
  {
    if a == [] || b == [] then 0
    else (if CellLess(a[0], b[0]) then 1 else 0) + LessCount(a[1..], b[1..])
  }

  /** The rows of two aligned columns where both cells are present and the first is less. */
  ghost function LessRows(a: seq<Cell>, b: seq<Cell>): set<int>
  {
    set i | 0 <= i < |a| && i < |b| && CellLess(a[i], b[i])
  }

  /** `(a < b).sum()` counts exactly the rows where the first cell is less than the second. */
  lemma {:induction false} LessCountRows(a: seq<Cell>, b: seq<Cell>)
    ensures LessCount(a, b) == |LessRows(a, b)|
    decreases |a|
  {
    if a != [] && b != [] {
      LessCountRows(a[1..], b[1..]);
      var tail := LessRows(a[1..], b[1..]);
      ShiftCard(tail);
      assert 0 !in Shift(tail);
      assert LessRows(a, b) == Shift(tail) + (if CellLess(a[0], b[0]) then {0} else {}) by {
        forall i | i in LessRows(a, b) && i != 0 ensures i in Shift(tail) {
          assert i - 1 in tail;
        }
      }
    } else {
      assert LessRows(a, b) == {};
    }
  }

  /** Every index moved one row down. */
  ghost function Shift(s: set<int>): set<int>
  {
    set i | i in s :: i + 1
  }

  /** A set of positive size has an element. */
  lemma HasElement(s: set<int>)
    requires |s| > 0
    ensures exists x :: x in s
  {
    if forall x :: x !in s {
      assert false;
    }
  }

  /** Shifting a set of indices by one keeps its size. */
  lemma {:induction false} ShiftCard(s: set<int>)
    ensures |Shift(s)| == |s|
    decreases |s|
  {
    if |s| > 0 {
      HasElement(s);
      var x :| x in s;
      ShiftCard(s - {x});
      assert Shift(s) == Shift(s - {x}) + {x + 1} by {
        forall j | j in Shift(s) ensures j in Shift(s - {x}) + {x + 1} {
          var i :| i in s && j == i + 1;
          if i != x {
            assert i in s - {x};
          }
        }
      }
      assert x + 1 !in Shift(s - {x});
    }
  }

  predicate HasAll(t: Table, names: seq<string>)
  {
    forall n :: n in names ==> HasColumn(t, n)
  }

  /** The counters in the order they are appended to `resumen`. */
  function Metrics(users: Table, events: Table): Result<seq<Metric>, AuditError>
  {
    if !HasColumn(users, "user_id") then Err(MissingColumn("users", "user_id"))
    else if !HasColumn(events, "event_uuid") then Err(MissingColumn("events", "event_uuid"))
    else if !HasColumn(events, "user_id") then Err(MissingColumn("events", "user_id"))
    else
      var uid := Get(users, "user_id").cells;
      var eid := Get(events, "user_id").cells;
      var valid := ValidCount(eid, uid);
      var base := [
        Metric("Usuarios sin user_id", NullCount(uid)),
        Metric("Eventos sin event_uuid", NullCount(Get(events, "event_uuid").cells)),
        Metric("Eventos sin user_id", NullCount(eid)),
        Metric("Duplicados user_id", Duplicates(users, "user_id")),
        Metric("Duplicados event_uuid", Duplicates(events, "event_uuid")),
        Metric("Eventos con user_id válido", valid),
        Metric("Eventos huérfanos (sin user_id en usuarios)", events.height - valid)];
      if HasAll(events, EventDates) then
        var ts := Get(events, "event_timestamp").cells;
        var created := Get(events, "created_at").cells;
        var received := Get(events, "received_at").cells;
        Ok(base + [
          Metric("Eventos con created_at < event_timestamp", LessCount(created, ts)),
          Metric("Eventos con received_at < created_at", LessCount(received, created))])
      else Ok(base)
  }

  // ---------------------------------------------------------------------
  // Cardinality

  /** The entry for one domain column: from users when it is there, else from events. */
  function DomainEntry(users: Table, events: Table, col: string): Option<Cardinality>
  {
    if HasColumn(users, col) then Some(Cardinality(col, |DistinctNonNull(Get(users, col).cells)|))
    else if HasColumn(events, col) then Some(Cardinality(col, |DistinctNonNull(Get(events, col).cells)|))
    else None
  }

  /** `dominios`, filled in the order of `cols`. */
  function Domains(users: Table, events: Table, cols: seq<string>): seq<Cardinality>
    decreases |cols|
  {
    if cols == [] then []
    else
      var e := DomainEntry(users, events, cols[|cols| - 1]);
      Domains(users, events, cols[..|cols| - 1]) + (if e.Some? then [e.value] else [])
  }

  /** The loop over the four domain columns. */
  method CollectDomains(users: Table, events: Table) returns (d: seq<Cardinality>)
    ensures d == Domains(users, events, DomainColumns)
  {
    d := [];
    for i := 0 to |DomainColumns|
      invariant d == Domains(users, events, DomainColumns[..i])
    {
      var col := DomainColumns[i];
      assert DomainColumns[..i + 1][..i] == DomainColumns[..i];
      if col in Names(users.cols) || col in Names(events.cols) {
        var source := if col in Names(users.cols) then users else events;
        d := d + [Cardinality(col, |DistinctNonNull(Get(source, col).cells)|)];
      }
    }
    assert DomainColumns[..|DomainColumns|] == DomainColumns;
  }

  /**
   * Exactly the listed columns present in either table are reported, each
   * once, with the distinct non-null values of the users column when users
   * has it and of the events column otherwise.
   */
  lemma {:induction false} DomainsReported(users: Table, events: Table, cols: seq<string>)
    ensures forall c :: c in Domains(users, events, cols) ==>
      && c.column in cols
      && DomainEntry(users, events, c.column) == Some(c)
    ensures forall col :: col in cols && (HasColumn(users, col) || HasColumn(events, col)) ==>
      exists c :: c in Domains(users, events, cols) && c.column == col
    decreases |cols|
  {
    if cols != [] {
      var init := cols[..|cols| - 1];
      var last := cols[|cols| - 1];
      DomainsReported(users, events, init);
      assert forall col :: col in cols ==> col in init || col == last;
      assert forall col :: col in init ==> col in cols;
      var e := DomainEntry(users, events, last);
      if e.Some? {
        assert e.value in Domains(users, events, cols);
      }
    }
  }

  /** Users wins over events for a column both tables have. */
  lemma DomainPrefersUsers(users: Table, events: Table, col: string)
    requires HasColumn(users, col)
    ensures DomainEntry(users, events, col) == Some(Cardinality(col, |DistinctNonNull(Get(users, col).cells)|))
  {
  }

  // ---------------------------------------------------------------------
  // What the counters mean

  /** The duplicate counter is at least the number of null ids: a null row counts as a duplicate. */
  lemma DuplicatesCountNulls(t: Table, name: string)
    requires HasColumn(t, name) && |Get(t, name).cells| == t.height
    ensures Duplicates(t, name) >= NullCount(Get(t, name).cells)
  {
    DistinctBound(Get(t, name).cells);
  }

  /** The duplicate counter is 0 exactly when there are no nulls and no repeated values. */
  lemma DuplicatesZero(t: Table, name: string)
    requires HasColumn(t, name) && |Get(t, name).cells| == t.height
    ensures Duplicates(t, name) == 0 <==>
      && (forall i :: 0 <= i < t.height ==> Get(t, name).cells[i] != Null)
      && (forall i, j :: 0 <= i < j < t.height ==> Get(t, name).cells[i] != Get(t, name).cells[j])
  {
    var cells := Get(t, name).cells;
    DistinctBound(cells);
    NullCountZero(cells);
    if (forall i :: 0 <= i < t.height ==> cells[i] != Null)
       && (forall i, j :: 0 <= i < j < t.height ==> cells[i] != cells[j]) {
      DistinctExact(cells);
    }
    if Duplicates(t, name) == 0 {
      forall i, j | 0 <= i < j < t.height ensures cells[i] != cells[j] {
        if cells[i] == cells[j] {
          RepeatShrinksDistinct(cells, i, j);
        }
      }
    }
  }

  /** A repeated non-null value leaves fewer distinct values than non-null rows. */
  lemma RepeatShrinksDistinct(cells: seq<Cell>, i: nat, j: nat)
    requires i < j < |cells| && cells[i] == cells[j] && cells[j] != Null
    ensures |DistinctNonNull(cells)| + NullCount(cells) < |cells|
  {
    var rest := cells[..j] + cells[j + 1..];
    assert cells == cells[..j] + ([cells[j]] + cells[j + 1..]);
    assert DistinctNonNull(cells) == DistinctNonNull(rest) by {
      assert forall c :: c in cells <==> c in rest || c == cells[j];
      assert cells[j] in rest by { assert rest[i] == cells[i]; }
    }
    DistinctBound(rest);
    NullCountAppend(cells[..j], [cells[j]] + cells[j + 1..]);
    NullCountAppend([cells[j]], cells[j + 1..]);
    NullCountAppend(cells[..j], cells[j + 1..]);
  }

  /**
   * Valid and orphan events add up to all events, and the orphans are
   * exactly the events whose id the users table lacks.
   */
  lemma ValidAndOrphans(users: Table, events: Table)
    requires Metrics(users, events).Ok?
    requires |Get(events, "user_id").cells| == events.height
    ensures var m := Metrics(users, events).value;
      && m[5].value + m[6].value == events.height
      && m[6].value == Count(Get(events, "user_id").cells, NotInList(Get(users, "user_id").cells))
  {
    CountComplement(Get(events, "user_id").cells, InList(Get(users, "user_id").cells), NotInList(Get(users, "user_id").cells));
  }

  /** The temporal counters appear, after the seven others, exactly when all three timestamps exist. */
  lemma TemporalCounters(users: Table, events: Table)
    requires Metrics(users, events).Ok?
    ensures var m := Metrics(users, events).value;
      && (|m| == 9 <==> HasAll(events, EventDates))
      && (|m| == 7 <==> !HasAll(events, EventDates))
      && (|m| == 9 ==>
            && m[7].name == "Eventos con created_at < event_timestamp"
            && m[8].name == "Eventos con received_at < created_at")
  {
  }

  /** The counters fail on the first absent id column, in the order they are read. */
  lemma MetricsErrors(users: Table, events: Table)
    ensures !HasColumn(users, "user_id") ==> Metrics(users, events) == Err(MissingColumn("users", "user_id"))
    ensures HasColumn(users, "user_id") && !HasColumn(events, "event_uuid") ==>
      Metrics(users, events) == Err(MissingColumn("events", "event_uuid"))
    ensures Metrics(users, events).Ok? <==>
      HasColumn(users, "user_id") && HasColumn(events, "event_uuid") && HasColumn(events, "user_id")
  {
  }

  // ---------------------------------------------------------------------
  // The report

  function MetricLine(m: Metric): string
  {
    "| " + m.name + " | " + SignedGrouped(m.value) + " |"
  }

  function DomainLine(c: Cardinality): string
  {
    "| " + c.column + " | " + NatToString(c.distinct) + " |"
  }

  function Header(stamp: string): seq<string>
  {
    ["# Auditoría de Calidad de Datos — " + stamp,
     "\n## Resultados cuantitativos\n",
     "| Métrica | Valor |",
     "|----------|--------|"]
  }

  const DomainHeader: seq<string> := [
    "\n## Diversidad de valores (cardinalidad)\n",
    "| Columna | Número de valores únicos |",
    "|----------|---------------------------|"]

  function MetricLines(ms: seq<Metric>): (ls: seq<string>)
    ensures |ls| == |ms| && forall i :: 0 <= i < |ms| ==> ls[i] == MetricLine(ms[i])
  {
    seq(|ms|, i requires 0 <= i < |ms| => MetricLine(ms[i]))
  }

  function DomainLines(ds: seq<Cardinality>): (ls: seq<string>)
    ensures |ls| == |ds| && forall i :: 0 <= i < |ds| ==> ls[i] == DomainLine(ds[i])
  {
    seq(|ds|, i requires 0 <= i < |ds| => DomainLine(ds[i]))
  }

  /** The report's lines; the wall-clock stamp is a parameter. */
  function Report(stamp: string, ms: seq<Metric>, ds: seq<Cardinality>): seq<string>
  {
    Header(stamp) + MetricLines(ms) + DomainHeader + DomainLines(ds)
  }

  /** The two append loops that build `lines`. */
  method BuildReport(stamp: string, ms: seq<Metric>, ds: seq<Cardinality>) returns (lines: seq<string>)
    ensures lines == Report(stamp, ms, ds)
  {
    lines := AppendMetricLines(Header(stamp), ms);
    lines := AppendDomainLines(lines + DomainHeader, ds);
  }

  /** The first loop: one row per counter, in order. */
  method AppendMetricLines(head: seq<string>, ms: seq<Metric>) returns (lines: seq<string>)
    ensures lines == head + MetricLines(ms)
  {
    ghost var rows := MetricLines(ms);
    lines := head;
    for i := 0 to |ms|
      invariant lines == head + rows[..i]
    {
      var line := MetricLine(ms[i]);
      assert line == rows[i];
      lines := lines + [line];
      assert rows[..i + 1] == rows[..i] + [line];
    }
    assert rows[..|ms|] == rows;
  }

  /** The second loop: one row per cardinality, in order. */
  method AppendDomainLines(head: seq<string>, ds: seq<Cardinality>) returns (lines: seq<string>)
    ensures lines == head + DomainLines(ds)
  {
    ghost var rows := DomainLines(ds);
    lines := head;
    for j := 0 to |ds|
      invariant lines == head + rows[..j]
    {
      var line := DomainLine(ds[j]);
      assert line == rows[j];
      lines := lines + [line];
      assert rows[..j + 1] == rows[..j] + [line];
    }
    assert rows[..|ds|] == rows;
  }


  /** Where an entry of the second or the fourth part of a four-part layout lands. */
  lemma Layout(h: seq<string>, a: seq<string>, d: seq<string>, b: seq<string>, k: nat)
    ensures |h + a + d + b| == |h| + |a| + |d| + |b|
    ensures |h| <= k < |h| + |a| ==> (h + a + d + b)[k] == a[k - |h|]
    ensures |h| + |a| + |d| <= k < |h + a + d + b| ==> (h + a + d + b)[k] == b[k - |h| - |a| - |d|]
  {
  }

  /** The report splits into its header, the counter rows, the cardinality header and rows. */
  lemma ReportParts(stamp: string, ms: seq<Metric>, ds: seq<Cardinality>)
    ensures |Header(stamp)| == 4 && |DomainHeader| == 3
    ensures Report(stamp, ms, ds) == Header(stamp) + MetricLines(ms) + DomainHeader + DomainLines(ds)
  {
  }

  /** The counter rows sit after the four header lines. */
  lemma MetricRowsAt(stamp: string, ms: seq<Metric>, ds: seq<Cardinality>, i: nat)
    requires i < |ms|
    ensures Report(stamp, ms, ds)[4 + i] == MetricLine(ms[i])
  {
    var a := MetricLines(ms);
    ReportParts(stamp, ms, ds);
    Layout(Header(stamp), a, DomainHeader, DomainLines(ds), 4 + i);
    assert Report(stamp, ms, ds)[4 + i] == a[i];
  }

  /** The cardinality rows sit after the counters and the three cardinality header lines. */
  lemma DomainRowsAt(stamp: string, ms: seq<Metric>, ds: seq<Cardinality>, j: nat)
    requires j < |ds|
    ensures 7 + |ms| + j < |Report(stamp, ms, ds)|
    ensures Report(stamp, ms, ds)[7 + |ms| + j] == DomainLine(ds[j])
  {
    var b := DomainLines(ds);
    ReportParts(stamp, ms, ds);
    Layout(Header(stamp), MetricLines(ms), DomainHeader, b, 7 + |ms| + j);
    assert Report(stamp, ms, ds)[7 + |ms| + j] == b[j];
  }

  /** One table row per counter and per cardinality, in the order they were collected. */
  lemma ReportRowOrder(stamp: string, ms: seq<Metric>, ds: seq<Cardinality>)
    ensures |Report(stamp, ms, ds)| == 7 + |ms| + |ds|
    ensures forall i :: 0 <= i < |ms| ==> Report(stamp, ms, ds)[4 + i] == MetricLine(ms[i])
    ensures forall j :: 0 <= j < |ds| ==> Report(stamp, ms, ds)[7 + |ms| + j] == DomainLine(ds[j])
  {
    ReportParts(stamp, ms, ds);
    forall i | 0 <= i < |ms| ensures Report(stamp, ms, ds)[4 + i] == MetricLine(ms[i]) {
      MetricRowsAt(stamp, ms, ds, i);
    }
    forall j | 0 <= j < |ds| ensures Report(stamp, ms, ds)[7 + |ms| + j] == DomainLine(ds[j]) {
      DomainRowsAt(stamp, ms, ds, j);
    }
  }

  // ---------------------------------------------------------------------
  // auditoria_calidad

  datatype Audit = Audit(metrics: seq<Metric>, domains: seq<Cardinality>, lines: seq<string>)

  /** The first date column the read cannot find, if any. */
  function MissingDate(t: Table, table: string, names: seq<string>): (e: Option<AuditError>)
    ensures e.None? <==> HasAll(t, names)
  {
    if names == [] then None
    else if !HasColumn(t, names[0]) then Some(MissingDateColumn(table, names[0]))
    else MissingDate(t, table, names[1..])
  }

  /** `auditoria_calidad` from the two loaded tables. */
  function Audited(users: Table, events: Table, stamp: string): Result<Audit, AuditError>
  {
    var u := MissingDate(users, "users", UserDates);
    var e := MissingDate(events, "events", EventDates);
    if u.Some? then Err(u.value)
    else if e.Some? then Err(e.value)
    else
      var m := Metrics(users, events);
      if m.Err? then Err(m.error)
      else
        var d := Domains(users, events, DomainColumns);
        Ok(Audit(m.value, d, Report(stamp, m.value, d)))
  }

  method AuditQuality(users: Table, events: Table, stamp: string) returns (r: Result<Audit, AuditError>)
    ensures r == Audited(users, events, stamp)
  {
    var u := MissingDate(users, "users", UserDates);
    if u.Some? {
      return Err(u.value);
    }
    var e := MissingDate(events, "events", EventDates);
    if e.Some? {
      return Err(e.value);
    }
    var m := Metrics(users, events);
    if m.Err? {
      return Err(m.error);
    }
    var d := CollectDomains(users, events);
    var lines := BuildReport(stamp, m.value, d);
    r := Ok(Audit(m.value, d, lines));
  }

  /**
   * Because the read already demands the three event timestamps, a run that
   * gets to the counters always reports the two temporal ones.
   */
  lemma TemporalAlwaysReported(users: Table, events: Table, stamp: string)
    requires Audited(users, events, stamp).Ok?
    ensures |Audited(users, events, stamp).value.metrics| == 9
  {
  }
}
