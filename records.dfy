/**
 * The typed rows of the two cleaned tables the later stages read
 * (`users_clean.csv`, `events_clean.csv`) and the calendar arithmetic they
 * apply to timestamps. Timestamps are whole seconds since the Unix epoch
 * (UTC); a value pandas could not parse (NaT) is `None`.
 */
module Records {
  import opened Common

  /** A user or event key, a session key; their order is the order pandas sorts them in. */
  type Id = int

  /** A row of the users table with the seven columns the feature stages select. */
  datatype User = User(
    userId: Id,
    signupDate: Option<int>,
    lastActiveDate: Option<int>,
    country: Option<string>,
    device: Option<string>,
    language: Option<string>,
    subscriptionType: Option<string>)

  /** A row of the events table. */
  datatype Event = Event(
    eventUuid: Option<string>,
    userId: Option<Id>,
    eventType: Option<string>,
    eventTimestamp: Option<int>,
    sessionId: Option<Id>,
    createdAt: Option<int>,
    receivedAt: Option<int>)

  const SecondsPerDay: int := 86400

  /** `Timedelta.days`: whole days of a duration, rounded down (so -1 s is day -1). */
  function WholeDays(delta: int): (d: int)
    ensures d * SecondsPerDay <= delta < (d + 1) * SecondsPerDay
  {
    delta / SecondsPerDay
  }

  /** The calendar date (days since 1970-01-01) of a timestamp: `.dt.date`, `.dt.normalize()`. */
  function DayOf(t: int): int
  {
    WholeDays(t)
  }

  /** The month (year * 12 + month - 1) of a day number, by the proleptic Gregorian calendar. */
  function MonthOfDay(z0: int): (m: int)
  {
    var z := z0 + 719468;
    var era := z / 146097;
    var doe := z - era * 146097;
    var yoe := (doe - doe / 1460 + doe / 36524 - doe / 146096) / 365;
    var doy := doe - (365 * yoe + yoe / 4 - yoe / 100);
    var mp := (5 * doy + 2) / 153;
    var month := if mp < 10 then mp + 3 else mp - 9;
    var year := yoe + era * 400 + (if month <= 2 then 1 else 0);
    year * 12 + month - 1
  }

  /** `.dt.to_period("M")` of a timestamp. */
  function MonthOf(t: int): int
  {
    MonthOfDay(DayOf(t))
  }
}
