/**
 * `validate_users` (etl/01_clean_users.py): checks the required columns,
 * drops the leaked native label, normalises the two dates to midnight,
 * counts nulls, swaps inverted date pairs, drops rows without a user id and
 * keeps, per user id, the row with the latest activity. The issue report is
 * filled step by step in the order the checks run.
 */
module CleanUsers {
  import opened Common
  import opened Sorting
  import opened Records

  /**
   * A raw users row: the three columns the validator reads, already parsed
   * (`None` is a missing or unparseable value), and every other column by name.
   */
  datatype UserRow = UserRow(
    userId: Option<Id>,
    signupDate: Option<int>,
    lastActiveDate: Option<int>,
    others: map<string, string>)

  datatype UsersFrame = UsersFrame(columns: seq<string>, rows: seq<UserRow>)

  /**
   * The issue report (`issues`, written as JSON): either only the missing
   * required columns, or the six counters, in the order the checks add them.
   */
  datatype UserIssues =
    | MissingColumns(missingColumns: seq<string>)
    | Checked(
        nullUserId: nat,
        nullSignupDate: nat,
        nullLastActiveDate: nat,
        temporalInconsistencies: nat,
        droppedMissingUserId: nat,
        duplicatesRemoved: nat)

  const Required: seq<string> := ["user_id", "signup_date", "last_active_date"]
  const LeakedLabel: string := "churned_30d"

  /** The columns a row carries besides the three typed ones are columns of the frame. */
  predicate WellFormed(df: UsersFrame)
  {
    forall r :: r in df.rows ==> forall k :: k in r.others ==> k in df.columns && k !in Required
  }

  /** `columns` without every occurrence of `name`. */
  function Without(columns: seq<string>, name: string): (r: seq<string>)
    ensures forall c :: c in r <==> c in columns && c != name
  {
    if columns == [] then []
    else (if columns[0] == name then [] else [columns[0]]) + Without(columns[1..], name)
  }

  /** `df.drop(columns=["churned_30d"])`. */
  function DropLabel(df: UsersFrame): UsersFrame
  {
    UsersFrame(Without(df.columns, LeakedLabel),
      seq(|df.rows|, i requires 0 <= i < |df.rows| => df.rows[i].(others := df.rows[i].others - {LeakedLabel})))
  }

  /** `.dt.normalize()`: the midnight that starts the day of the timestamp. */
  function Normalize(d: Option<int>): (r: Option<int>)
    ensures r.Some? <==> d.Some?
    ensures r.Some? ==> r.value % SecondsPerDay == 0 && r.value <= d.value < r.value + SecondsPerDay
  {
    match d
    case None => None
    case Some(t) => Some(DayOf(t) * SecondsPerDay)
  }

  function NormalizeRow(r: UserRow): UserRow
  {
    r.(signupDate := Normalize(r.signupDate), lastActiveDate := Normalize(r.lastActiveDate))
  }

  function NormalizeDates(rows: seq<UserRow>): (r: seq<UserRow>)
    ensures |r| == |rows|
  {
    seq(|rows|, i requires 0 <= i < |rows| => NormalizeRow(rows[i]))
  }

  predicate NullId(r: UserRow) { r.userId.None? }
  predicate NullSignup(r: UserRow) { r.signupDate.None? }
  predicate NullLastActive(r: UserRow) { r.lastActiveDate.None? }

  /** `signup_date > last_active_date` (false when either is NaT). */
  predicate Inverted(r: UserRow)
  {
    r.signupDate.Some? && r.lastActiveDate.Some? && r.signupDate.value > r.lastActiveDate.value
  }

  function SwapDates(r: UserRow): UserRow
  {
    if Inverted(r) then r.(signupDate := r.lastActiveDate, lastActiveDate := r.signupDate) else r
  }

  /** `df.loc[inconsistent, [signup, last]] = df.loc[inconsistent, [last, signup]].values`. */
  function FixInverted(rows: seq<UserRow>): (r: seq<UserRow>)
    ensures |r| == |rows|
    ensures forall i :: 0 <= i < |r| ==> !Inverted(r[i]) && r[i].userId == rows[i].userId
  {
    seq(|rows|, i requires 0 <= i < |rows| => SwapDates(rows[i]))
  }

  /** `df[~df["user_id"].isna()]`. */
  function DropNullIds(rows: seq<UserRow>): (r: seq<UserRow>)
    ensures forall x :: x in r <==> x in rows && x.userId.Some?
    ensures |r| + Count(rows, NullId) == |rows|
  {
    if rows == [] then []
    else (if rows[0].userId.Some? then [rows[0]] else []) + DropNullIds(rows[1..])
  }

  /** Ascending order with nulls last (`ascending=True, na_position="last"`), strict. */
  predicate IdBefore(a: Option<Id>, b: Option<Id>)
  {
    (a.Some? && b.None?) || (a.Some? && b.Some? && a.value < b.value)
  }

  /** Descending order with nulls last (`ascending=False, na_position="last"`), non-strict. */
  predicate LatestFirst(a: Option<int>, b: Option<int>)
  {
    b.None? || (a.Some? && a.value >= b.value)
  }

  /** `sort_values(by=["user_id", "last_active_date"], ascending=[True, False])`. */
  predicate RowLe(a: UserRow, b: UserRow)
  {
    IdBefore(a.userId, b.userId) || (a.userId == b.userId && LatestFirst(a.lastActiveDate, b.lastActiveDate))
  }

  function UserKey(r: UserRow): Option<Id> { r.userId }

  /** Sort, then `drop_duplicates(subset=["user_id"], keep="first")`. */
  function Deduplicate(rows: seq<UserRow>): seq<UserRow>
  {
    KeepFirst(SortBy(rows, RowLe), UserKey)
  }

  /** The rows after the label drop and date normalisation, as the null counts see them. */
  function Prepared(df: UsersFrame): (r: seq<UserRow>)
    ensures |r| == |df.rows|
  {
    var d := if LeakedLabel in df.columns then DropLabel(df) else df;
    NormalizeDates(d.rows)
  }

  /** The rows after the date swap: what the null-id drop and deduplication choose from. */
  function Repaired(df: UsersFrame): seq<UserRow>
  {
    FixInverted(Prepared(df))
  }

  /** The rows `validate_users` returns when no required column is missing. */
  function CleanRows(df: UsersFrame): seq<UserRow>
  {
    Deduplicate(DropNullIds(Repaired(df)))
  }

  function ColumnsAfter(df: UsersFrame): seq<string>
  {
    if LeakedLabel in df.columns then Without(df.columns, LeakedLabel) else df.columns
  }

  /**
   * `rows` is a deduplication of `repaired`: unique ascending ids, no
   * inverted dates, no label cell, each row one of `repaired`; every id of
   * `repaired` survives, on the row with its latest activity (nulls ranked last).
   */
  ghost predicate Deduplicated(repaired: seq<UserRow>, rows: seq<UserRow>)
  {
    && UniqueAscendingIds(rows)
    && KeptFrom(repaired, rows)
    && KeepsEveryId(repaired, rows)
    && KeepsLatest(repaired, rows)
  }

  /** Every row has an id and consistent dates, and the ids strictly ascend. */
  ghost predicate UniqueAscendingIds(rows: seq<UserRow>)
  {
    && (forall i :: 0 <= i < |rows| ==> rows[i].userId.Some? && !Inverted(rows[i]))
    && (forall i, j :: 0 <= i < j < |rows| ==> rows[i].userId.value < rows[j].userId.value)
  }

  /** Each row is one of `repaired` and has no label cell. */
  ghost predicate KeptFrom(repaired: seq<UserRow>, rows: seq<UserRow>)
  {
    forall r :: r in rows ==> r in repaired && LeakedLabel !in r.others
  }

  /** Every non-null id of `repaired` has a row. */
  ghost predicate KeepsEveryId(repaired: seq<UserRow>, rows: seq<UserRow>)
  {
    forall x :: x in repaired && x.userId.Some? ==> exists r :: r in rows && r.userId == x.userId
  }

  /** The row kept for an id has the latest activity of all rows with that id (nulls ranked last). */
  ghost predicate KeepsLatest(repaired: seq<UserRow>, rows: seq<UserRow>)
  {
    forall r, x :: r in rows && x in repaired && x.userId == r.userId ==>
      LatestFirst(r.lastActiveDate, x.lastActiveDate)
  }

  method ValidateUsers(df: UsersFrame) returns (out: UsersFrame, issues: UserIssues)
    requires WellFormed(df)
    // Missing required columns: the input comes back as it was, with the missing names in order.
    ensures Missing(Required, df.columns) != [] ==>
      out == df && issues == MissingColumns(Missing(Required, df.columns))
    // Otherwise the label column is gone; the null counts are those of the input, taken before
    // any swap or drop; every row removed is a null-id row or a duplicate.
    ensures Missing(Required, df.columns) == [] ==>
      && out.columns == ColumnsAfter(df)
      && LeakedLabel !in out.columns
      && issues.Checked?
      && issues.nullUserId == Count(df.rows, NullId)
      && issues.nullSignupDate == Count(df.rows, NullSignup)
      && issues.nullLastActiveDate == Count(df.rows, NullLastActive)
      && issues.temporalInconsistencies == Count(Prepared(df), Inverted)
      && issues.droppedMissingUserId == Count(df.rows, NullId)
      && issues.droppedMissingUserId + issues.duplicatesRemoved + |out.rows| == |df.rows|
    ensures Missing(Required, df.columns) == [] ==> Deduplicated(Repaired(df), out.rows)
  {
    var missing := Missing(Required, df.columns);
    if missing != [] {
      out := df;
      issues := MissingColumns(missing);
      return;
    }

    var frame := df;
    if LeakedLabel in frame.columns {
      frame := DropLabel(frame);
    }
    frame := frame.(rows := NormalizeDates(frame.rows));
    assert frame.rows == Prepared(df);
    PreparedKeepsNulls(df);

    var nullUserId := Count(frame.rows, NullId);
    var nullSignupDate := Count(frame.rows, NullSignup);
    var nullLastActiveDate := Count(frame.rows, NullLastActive);

    var inconsistent := Count(frame.rows, Inverted);
    if inconsistent > 0 {
      frame := frame.(rows := FixInverted(frame.rows));
    } else {
      FixInvertedNoop(frame.rows);
    }
    assert frame.rows == Repaired(df);

    var before := |frame.rows|;
    frame := frame.(rows := DropNullIds(frame.rows));
    var dropped := before - |frame.rows|;

    var sorted := SortBy(frame.rows, RowLe);
    var deduped := KeepFirst(sorted, UserKey);
    issues := Checked(nullUserId, nullSignupDate, nullLastActiveDate, inconsistent, dropped, |sorted| - |deduped|);
    out := frame.(rows := deduped);
    assert out.rows == CleanRows(df);
    CleanRowsFacts(df);
  }

  // ---------------------------------------------------------------------
  // Lemmas

  /**
   * Dropping the label and normalising the dates neither creates nor removes
   * a null, and the swap keeps every id: the reported null counts are the input's.
   */
  lemma PreparedKeepsNulls(df: UsersFrame)
    ensures Count(Prepared(df), NullId) == Count(df.rows, NullId)
    ensures Count(Prepared(df), NullSignup) == Count(df.rows, NullSignup)
    ensures Count(Prepared(df), NullLastActive) == Count(df.rows, NullLastActive)
    ensures Count(Repaired(df), NullId) == Count(df.rows, NullId)
  {
    var p := Prepared(df);
    CountMapped(p, df.rows, NullId, NullId);
    CountMapped(p, df.rows, NullSignup, NullSignup);
    CountMapped(p, df.rows, NullLastActive, NullLastActive);
    CountMapped(Repaired(df), p, NullId, NullId);
  }

  /** The cleaned rows guarantee everything `Deduplicated` lists. */
  lemma CleanRowsFacts(df: UsersFrame)
    requires WellFormed(df)
    ensures Deduplicated(Repaired(df), CleanRows(df))
  {
    RepairedHasNoLabel(df);
    DropAndDeduplicate(Repaired(df));
  }

  /** Dropping null ids and deduplicating rows that are already repaired. */
  lemma DropAndDeduplicate(repaired: seq<UserRow>)
    requires forall x :: x in repaired ==> !Inverted(x) && LeakedLabel !in x.others
    ensures Deduplicated(repaired, Deduplicate(DropNullIds(repaired)))
  {
    var rows := DropNullIds(repaired);
    var d := Deduplicate(rows);
    DeduplicateKept(repaired);
    DeduplicateAscending(rows);
    assert UniqueAscendingIds(d) by {
      assert forall i :: 0 <= i < |d| ==> d[i] in d;
    }
    DeduplicateCovers(repaired);
    DeduplicateLatestOf(repaired);
  }

  /** Deduplication only keeps rows it was given. */
  lemma DeduplicateKept(repaired: seq<UserRow>)
    ensures forall x :: x in Deduplicate(DropNullIds(repaired)) ==> x in repaired
  {
    SortKeepFirstMembers(DropNullIds(repaired), RowLe, UserKey);
  }

  /** Every non-null id survives deduplication. */
  lemma DeduplicateCovers(repaired: seq<UserRow>)
    ensures KeepsEveryId(repaired, Deduplicate(DropNullIds(repaired)))
  {
    var rows := DropNullIds(repaired);
    var d := Deduplicate(rows);
    forall x | x in repaired && x.userId.Some? ensures exists r :: r in d && r.userId == x.userId {
      assert x in rows;
      SortKeepFirstCovers(rows, RowLe, UserKey);
    }
  }

  /** The survivor of an id is its latest row among all repaired rows. */
  lemma DeduplicateLatestOf(repaired: seq<UserRow>)
    ensures KeepsLatest(repaired, Deduplicate(DropNullIds(repaired)))
  {
    var rows := DropNullIds(repaired);
    var d := Deduplicate(rows);
    SortKeepFirstMembers(rows, RowLe, UserKey);
    DeduplicateLatest(rows);
    forall r, x | r in d && x in repaired && x.userId == r.userId
      ensures LatestFirst(r.lastActiveDate, x.lastActiveDate)
    {
      assert r in rows;
      assert x in rows;
    }
  }

  /** Each kept row has the latest activity of all rows sharing its id. */
  lemma DeduplicateLatest(rows: seq<UserRow>)
    ensures forall r, x :: r in Deduplicate(rows) && x in rows && x.userId == r.userId ==>
      LatestFirst(r.lastActiveDate, x.lastActiveDate)
  {
    var d := Deduplicate(rows);
    RowLeTotalPreorder();
    SortKeepFirstLeast(rows, RowLe, UserKey);
    forall r, x | r in d && x in rows && x.userId == r.userId
      ensures LatestFirst(r.lastActiveDate, x.lastActiveDate)
    {
      assert RowLe(r, x);
    }
  }

  /** No repaired row carries the label column. */
  lemma RepairedHasNoLabel(df: UsersFrame)
    requires WellFormed(df)
    ensures forall r :: r in Repaired(df) ==> LeakedLabel !in r.others
  {
    var d := if LeakedLabel in df.columns then DropLabel(df) else df;
    forall r | r in Repaired(df) ensures LeakedLabel !in r.others {
      var i :| 0 <= i < |Repaired(df)| && Repaired(df)[i] == r;
      assert r.others == d.rows[i].others;
      if LeakedLabel !in df.columns {
        assert d.rows[i] in df.rows;
      }
    }
  }

  /** With no inverted pair the swap step changes nothing. */
  lemma FixInvertedNoop(rows: seq<UserRow>)
    requires Count(rows, Inverted) == 0
    ensures FixInverted(rows) == rows
  {
    CountZero(rows, Inverted);
  }

  lemma RowLeTotalPreorder()
    ensures TotalPreorder(RowLe)
  {
    forall a, b, c | RowLe(a, b) && RowLe(b, c) ensures RowLe(a, c) {
      if IdBefore(a.userId, b.userId) || IdBefore(b.userId, c.userId) {
        assert IdBefore(a.userId, c.userId);
      }
    }
  }

  /** On rows without null ids, the kept ids are strictly ascending. */
  lemma DeduplicateAscending(rows: seq<UserRow>)
    requires forall x :: x in rows ==> x.userId.Some?
    ensures forall i :: 0 <= i < |Deduplicate(rows)| ==> Deduplicate(rows)[i].userId.Some?
    ensures forall i, j :: 0 <= i < j < |Deduplicate(rows)| ==>
      Deduplicate(rows)[i].userId.value < Deduplicate(rows)[j].userId.value
  {
    var d := Deduplicate(rows);
    RowLeTotalPreorder();
    SortKeepFirstMembers(rows, RowLe, UserKey);
    SortKeepFirstLeast(rows, RowLe, UserKey);
    forall i, j | 0 <= i < j < |d| ensures d[i].userId.value < d[j].userId.value {
      assert RowLe(d[i], d[j]);
    }
  }
}
