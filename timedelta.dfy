/**
 * Python's `datetime.timedelta`. Its constructor normalises any combination
 * of days, seconds and microseconds so that `0 <= seconds < 86400` and
 * `0 <= microseconds < 10**6`, carrying (with floor division) into days;
 * only `days` can be negative. Django's DurationField stores such a value.
 */
module Deltas {
  import opened Clock

  datatype TimeDelta = TimeDelta(days: int, seconds: int, microseconds: int)
  {
    predicate Normalized() {
      0 <= seconds < SecondsPerDay && 0 <= microseconds < MicrosPerSecond
    }
  }

  type NormalDelta = td: TimeDelta | td.Normalized() witness TimeDelta(0, 0, 0)

  /** `timedelta(days=1)`. */
  const OneDay: NormalDelta := TimeDelta(1, 0, 0)

  /** The signed length of a delta in microseconds. */
  function TotalMicros(td: TimeDelta): int {
    (td.days * SecondsPerDay + td.seconds) * MicrosPerSecond + td.microseconds
  }

  /**
   * The normalised delta of a signed number of microseconds, by the two
   * `divmod` carries the timedelta constructor performs.
   */
  function FromMicros(m: int): (td: NormalDelta)
    ensures TotalMicros(td) == m
  {
    var s := m / MicrosPerSecond;
    TimeDelta(s / SecondsPerDay, s % SecondsPerDay, m % MicrosPerSecond)
  }

  /** A normalised delta is determined by its length: normalisation is its inverse. */
  lemma {:induction false} FromTotalMicros(td: NormalDelta)
    ensures FromMicros(TotalMicros(td)) == td
  {
    var m := TotalMicros(td);
    var s := td.days * SecondsPerDay + td.seconds;
    assert m == s * MicrosPerSecond + td.microseconds;
    DivModUnique(m, MicrosPerSecond, s, td.microseconds);
    DivModUnique(s, SecondsPerDay, td.days, td.seconds);
  }

  /** Two normalised deltas of the same length are equal. */
  lemma {:induction false} LengthDetermines(a: NormalDelta, b: NormalDelta)
    requires TotalMicros(a) == TotalMicros(b)
    ensures a == b
  {
    FromTotalMicros(a);
    FromTotalMicros(b);
  }

  /** Euclidean division by `k` has one quotient and one remainder. */
  lemma {:induction false} DivModUnique(m: int, k: nat, q: int, r: int)
    requires 0 < k && m == q * k + r && 0 <= r < k
    ensures m / k == q && m % k == r
  {
    var q', r' := m / k, m % k;
    assert m == q' * k + r';
    var d := q - q';
    assert d * k == r' - r by {
      assert q * k - q' * k == (q - q') * k;
    }
    if d > 0 {
      assert d * k >= k by { MulMonotone(d, k); }
    } else if d < 0 {
      assert (-d) * k >= k by { MulMonotone(-d, k); }
    }
  }

  lemma MulMonotone(d: int, k: nat)
    requires d >= 1
    ensures d * k >= k
  {
  }
}
