/**
 * Python's naive `datetime.datetime`, limited to what a duration computation
 * uses: `datetime.combine`, `<`, `+ timedelta` and `datetime - datetime`.
 * A calendar date is represented by its proleptic Gregorian ordinal
 * (`date.toordinal()`), which orders dates the way (year, month, day) does.
 */
module DateTimes {
  import opened Wrappers
  import opened Clock
  import opened Deltas

  /** `date.max.toordinal()`, the ordinal of 9999-12-31; `date.min` is ordinal 1. */
  const MaxOrdinal: int := 3_652_059

  type Ordinal = d: int | 1 <= d <= MaxOrdinal witness 1

  /** `datetime.combine(date, time)` pairs a date with a time of day. */
  datatype DateTime = DateTime(date: Ordinal, time: ClockTime)

  /** Microseconds since the start of day 0: the datetime's point on the time line. */
  function Instant(dt: DateTime): (i: int)
    ensures i / MicrosPerDay == dt.date && i % MicrosPerDay == Micros(dt.time)
  {
    var i := dt.date * MicrosPerDay + Micros(dt.time);
    DivModUnique(i, MicrosPerDay, dt.date, Micros(dt.time));
    i
  }

  /** `a < b` on naive datetimes: lexicographic on the date, then the time fields. */
  predicate Less(a: DateTime, b: DateTime) {
    a.date < b.date || (a.date == b.date && TupleLess(a.time, b.time))
  }

  /** Python's field-by-field comparison is the order of the time line. */
  lemma {:induction false} LessIsEarlier(a: DateTime, b: DateTime)
    ensures Less(a, b) <==> Instant(a) < Instant(b)
  {
    FieldOrderIsMicrosOrder(a.time, b.time);
    if a.date < b.date {
      assert a.date * MicrosPerDay + MicrosPerDay <= b.date * MicrosPerDay;
    } else if a.date > b.date {
      assert b.date * MicrosPerDay + MicrosPerDay <= a.date * MicrosPerDay;
    }
  }

  /**
   * `dt + td`: the date's ordinal and the time of day are summed with `td`
   * as a timedelta and the sum is split back into a date and a time; a sum
   * whose day lies outside 1 .. MaxOrdinal raises OverflowError (`None`).
   */
  function Plus(dt: DateTime, td: NormalDelta): (r: Option<DateTime>)
    ensures r.Some? <==> MicrosPerDay <= Instant(dt) + TotalMicros(td) < (MaxOrdinal + 1) * MicrosPerDay
    ensures r.Some? ==> Instant(r.value) == Instant(dt) + TotalMicros(td)
  {
    var start := TimeDelta(dt.date, Seconds(dt.time), dt.time.microsecond);
    var sum := FromMicros(TotalMicros(start) + TotalMicros(td));
    if 0 < sum.days <= MaxOrdinal then
      Some(DateTime(sum.days, FromSeconds(sum.seconds, sum.microseconds)))
    else
      None
  }

  /** `a - b`: the normalised timedelta from `b` to `a`, negative when `a` is earlier. */
  function Minus(a: DateTime, b: DateTime): (td: NormalDelta)
    ensures TotalMicros(td) == Instant(a) - Instant(b)
  {
    var days := a.date - b.date;
    var secs := Seconds(a.time) - Seconds(b.time);
    var micros := a.time.microsecond - b.time.microsecond;
    FromMicros(TotalMicros(TimeDelta(days, secs, micros)))
  }
}
