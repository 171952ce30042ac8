/**
 * `parseDateRange` of the worker command: the extraction window is either given
 * as two layout strings or, when both are omitted, defaults to yesterday's
 * midnight .. today's midnight.
 *
 * Go's `time.Time` is modelled here as a civil (wall-clock) date plus the
 * nanoseconds elapsed since that date's midnight, all in the one local zone.
 * Parsing with the layout "2006-01-02 15:04:05" is a parameter: the model
 * says only what the validator does with its outcome.
 */
module DateRange {
  import opened Wrappers

  datatype Date = Date(year: int, month: int, day: int)

  datatype CivilTime = CivilTime(date: Date, nanoOfDay: int)

  const NanosPerDay: int := 86_400_000_000_000

  predicate IsLeapYear(y: int) {
    y % 4 == 0 && (y % 100 != 0 || y % 400 == 0)
  }

  function DaysIn(year: int, month: int): int
    requires 1 <= month <= 12
  {
    if month == 2 then (if IsLeapYear(year) then 29 else 28)
    else if month == 4 || month == 6 || month == 9 || month == 11 then 30
    else 31
  }

  predicate ValidDate(d: Date) {
    1 <= d.month <= 12 && 1 <= d.day <= DaysIn(d.year, d.month)
  }

  predicate ValidTime(t: CivilTime) {
    ValidDate(t.date) && 0 <= t.nanoOfDay < NanosPerDay
  }

  predicate DateBefore(a: Date, b: Date) {
    a.year < b.year
    || (a.year == b.year && a.month < b.month)
    || (a.year == b.year && a.month == b.month && a.day < b.day)
  }

  /** `t.Before(u)`: an instant is never before itself. */
  predicate Before(t: CivilTime, u: CivilTime)
    ensures Before(t, u) ==> t != u
  {
    DateBefore(t.date, u.date) || (t.date == u.date && t.nanoOfDay < u.nanoOfDay)
  }

  /** `Before` is a strict total order on civil times. */
  lemma BeforeIsStrictOrder(t: CivilTime, u: CivilTime, v: CivilTime)
    ensures !Before(t, t)
    ensures Before(t, u) ==> !Before(u, t)
    ensures Before(t, u) && Before(u, v) ==> Before(t, v)
    ensures t != u ==> Before(t, u) || Before(u, t)
  {
  }

  /** The calendar day after `d` (`AddDate(0, 0, 1)`). */
  function NextDay(d: Date): (n: Date)
    requires ValidDate(d)
    ensures ValidDate(n)
    ensures DateBefore(d, n)
  {
    if d.day < DaysIn(d.year, d.month) then Date(d.year, d.month, d.day + 1)
    else if d.month < 12 then Date(d.year, d.month + 1, 1)
    else Date(d.year + 1, 1, 1)
  }

  /** The calendar day before `d` (`AddDate(0, 0, -1)`). */
  function PrevDay(d: Date): (p: Date)
    requires ValidDate(d)
    ensures ValidDate(p)
    ensures DateBefore(p, d)
    ensures NextDay(p) == d
  {
    if d.day > 1 then Date(d.year, d.month, d.day - 1)
    else if d.month > 1 then Date(d.year, d.month - 1, DaysIn(d.year, d.month - 1))
    else Date(d.year - 1, 12, 31)
  }

  /** `time.Date(now.Year(), now.Month(), now.Day(), 0, 0, 0, 0, now.Location())`. */
  function Midnight(now: CivilTime): (m: CivilTime)
    requires ValidTime(now)
    ensures ValidTime(m) && m.nanoOfDay == 0 && m.date == now.date
    ensures !Before(now, m)
  {
    CivilTime(now.date, 0)
  }

  datatype DateRangeError =
    | InvalidArgument      // exactly one of the two strings is empty
    | InvalidStartFormat   // the start string does not parse
    | InvalidEndFormat     // the end string does not parse
    | EndBeforeStart       // both parse, but the end is before the start

  datatype Window = Window(startAt: CivilTime, endAt: CivilTime)

  /**
   * `parseDateRange(startAtStr, endAtStr)`, with `time.Now()` passed in as `now`
   * and `time.ParseInLocation(layout, _, time.Local)` passed in as `parse`.
   */
  function ParseDateRange(startAtStr: string, endAtStr: string, now: CivilTime,
                          parse: string -> Option<CivilTime>): (r: Result<Window, DateRangeError>)
    requires ValidTime(now)
    // both omitted: [yesterday 00:00, today 00:00), exactly one calendar day
    ensures startAtStr == "" && endAtStr == "" ==>
      && r.Ok?
      && r.value.endAt.date == now.date && r.value.endAt.nanoOfDay == 0
      && r.value.startAt.nanoOfDay == 0
      && ValidDate(r.value.startAt.date) && NextDay(r.value.startAt.date) == now.date
    // exactly one omitted
    ensures (startAtStr == "") != (endAtStr == "") ==> r == Err(InvalidArgument)
    // both given
    ensures startAtStr != "" && endAtStr != "" ==>
      && (parse(startAtStr).None? ==> r == Err(InvalidStartFormat))
      && (parse(startAtStr).Some? && parse(endAtStr).None? ==> r == Err(InvalidEndFormat))
      && (parse(startAtStr).Some? && parse(endAtStr).Some? ==>
            (r == Err(EndBeforeStart) <==> Before(parse(endAtStr).value, parse(startAtStr).value))
            && (!Before(parse(endAtStr).value, parse(startAtStr).value) ==>
                  r == Ok(Window(parse(startAtStr).value, parse(endAtStr).value))))
    // every accepted window is ordered: start <= end
    ensures r.Ok? ==> !Before(r.value.endAt, r.value.startAt)
  {
    var today := Midnight(now);
    var yesterday := CivilTime(PrevDay(today.date), 0);
    if startAtStr == "" && endAtStr == "" then
      Ok(Window(yesterday, today))
    else if startAtStr == "" || endAtStr == "" then
      Err(InvalidArgument)
    else
      match parse(startAtStr)
      case None => Err(InvalidStartFormat)
      case Some(startAt) =>
        match parse(endAtStr)
        case None => Err(InvalidEndFormat)
        case Some(endAt) =>
          if Before(endAt, startAt) then Err(EndBeforeStart) else Ok(Window(startAt, endAt))
  }

  /** An end equal to the start is accepted: the window may be empty. */
  lemma EqualBoundsAccepted(s: string, now: CivilTime, parse: string -> Option<CivilTime>)
    requires ValidTime(now) && s != "" && parse(s).Some?
    ensures ParseDateRange(s, s, now, parse) == Ok(Window(parse(s).value, parse(s).value))
  {
  }
}
