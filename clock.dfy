/**
 * Python's `datetime.time`: a naive wall-clock time of day made of an hour,
 * a minute, a second and a microsecond. The constructor of `time` refuses
 * out-of-range fields, so every value a program holds is a `ClockTime`.
 */
module Clock {

  const MicrosPerSecond: nat := 1_000_000
  const SecondsPerDay: nat := 86_400
  const MicrosPerDay: nat := 86_400_000_000

  datatype Time = Time(hour: int, minute: int, second: int, microsecond: int)
  {
    /** The ranges `datetime.time` accepts for its fields. */
    predicate Valid() {
      && 0 <= hour < 24
      && 0 <= minute < 60
      && 0 <= second < 60
      && 0 <= microsecond < 1_000_000
    }
  }

  type ClockTime = t: Time | t.Valid() witness Time(0, 0, 0, 0)

  /** Whole seconds since midnight, as datetime arithmetic computes them. */
  function Seconds(t: ClockTime): (s: nat)
    ensures s < SecondsPerDay
  {
    t.hour * 3600 + t.minute * 60 + t.second
  }

  /** Microseconds since midnight: the position of `t` on the day's time line. */
  function Micros(t: ClockTime): (x: nat)
    ensures x < MicrosPerDay
    ensures x / MicrosPerSecond == Seconds(t) && x % MicrosPerSecond == t.microsecond
  {
    Seconds(t) * MicrosPerSecond + t.microsecond
  }

  /**
   * The time of day a datetime carries after `datetime + timedelta`: hours,
   * minutes and seconds are recovered from the seconds of the day by two
   * `divmod` steps, the microseconds are taken as they are.
   */
  function FromSeconds(seconds: nat, micros: nat): (t: ClockTime)
    requires seconds < SecondsPerDay && micros < MicrosPerSecond
    ensures Seconds(t) == seconds && t.microsecond == micros
    ensures Micros(t) == seconds * MicrosPerSecond + micros
  {
    var hour := seconds / 3600;
    var rem := seconds % 3600;
    Time(hour, rem / 60, rem % 60, micros)
  }

  /** Two times of day with the same seconds and microseconds are the same time. */
  lemma {:induction false} SecondsInjective(t: ClockTime, u: ClockTime)
    requires Seconds(t) == Seconds(u) && t.microsecond == u.microsecond
    ensures t == u
  {
    var s := Seconds(t);
    assert s == t.hour * 3600 + (t.minute * 60 + t.second);
    assert t.hour == s / 3600 && u.hour == s / 3600;
    assert t.minute * 60 + t.second == s % 3600 == u.minute * 60 + u.second;
  }

  /** Microseconds since midnight identify a time of day. */
  lemma {:induction false} MicrosInjective(t: ClockTime, u: ClockTime)
    requires Micros(t) == Micros(u)
    ensures t == u
  {
    SecondsInjective(t, u);
  }

  /** Comparing times field by field, as Python does, is comparing their microseconds. */
  lemma {:induction false} FieldOrderIsMicrosOrder(t: ClockTime, u: ClockTime)
    ensures TupleLess(t, u) <==> Micros(t) < Micros(u)
  {
  }

  /** Lexicographic order on (hour, minute, second, microsecond). */
  predicate TupleLess(t: Time, u: Time) {
    || t.hour < u.hour
    || (t.hour == u.hour && t.minute < u.minute)
    || (t.hour == u.hour && t.minute == u.minute && t.second < u.second)
    || (t.hour == u.hour && t.minute == u.minute && t.second == u.second && t.microsecond < u.microsecond)
  }
}
