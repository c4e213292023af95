# Study tracker: session-duration model

A Dafny model of the study tracker's `tracker/models.py`. A study session
(`StudyRecordModel`) has a date, a time-in and a time-out. Each time the
record is saved, it derives its `total_duration` from those two times. A
time-out earlier than the time-in means the session ran past midnight. The
subject of a per-subject breakdown (`SubjectRecordModel.subject`) is validated
against seven fixed codes when the record's fields are cleaned.

`save` does not do the arithmetic on integers. It places both times on a dummy
date with `datetime.combine`, compares the two datetimes, adds
`timedelta(days=1)` to the end point when it is earlier, and subtracts. The
model follows these same steps over small models of Python's `time`,
`timedelta` and naive `datetime`:

- `wrappers.dfy` (`Wrappers`): `Option`, `Result` and `Outcome`.
- `clock.dfy` (`Clock`): `datetime.time` as a valid `(hour, minute, second, microsecond)`
  and its position in the day in microseconds.
- `timedelta.dfy` (`Deltas`): `timedelta` as `(days, seconds, microseconds)`,
  normalised the way its constructor does it.
- `datetime.dfy` (`DateTimes`): a naive datetime as a date ordinal plus a time.
  It gives Python's comparison, `+ timedelta` (with its `OverflowError` past
  `date.max`) and `datetime - datetime`.
- `models.dfy` (`Tracker`): the subject choices with Django's validation of the
  `subject` field (a scan of the choice list), the pure `Duration` rule, and the
  `StudyRecord` class. Its `Save` method updates `totalDuration` in place.

`Save` is proved to store `Duration(timeIn, timeOut)`. This is the unique
delta in [0, 24h) that leads round the clock from the time-in to the
time-out. Equal times give 0, not 24h. The dummy date is a parameter
`today`, because it is a clock read. The stored value does not depend on it,
with one exception. When `today` is `date.max` (9999-12-31) and the session
wraps, `out_dt += timedelta(days=1)` raises `OverflowError`. The model
returns `Fail(OverflowError)` and leaves the record unchanged.

A study record refers to its owner through one required `name` foreign key to
a user (`models.py` line 21).

## Model

| member | source | states |
|---|---|---|
| `Clock.Seconds` | backend_main/tracker/models.py:40-41 | the whole seconds of a time of day lie in [0, 86400) |
| `Clock.Micros` | backend_main/tracker/models.py:40-41 | a time of day is a point in [0, 24h) in microseconds; its quotient and remainder by 10**6 are its seconds and its microsecond field |
| `Clock.FromSeconds` | backend_main/tracker/models.py:44 | the time rebuilt after `datetime + timedelta` has exactly the given seconds of the day and microseconds |
| `Clock.MicrosInjective` | backend_main/tracker/models.py:43 | two times of day at the same microsecond of the day are equal |
| `Clock.FieldOrderIsMicrosOrder` | backend_main/tracker/models.py:43 | Python's field-by-field order on times is the order of their microseconds since midnight |
| `Deltas.FromMicros` | backend_main/tracker/models.py:46 | normalising a signed microsecond count gives a normalised timedelta of exactly that length |
| `Deltas.FromTotalMicros` | backend_main/tracker/models.py:46 | normalisation inverts taking the length: every normalised timedelta is recovered from its length |
| `Deltas.LengthDetermines` | backend_main/tracker/models.py:46 | two normalised timedeltas of equal length are equal |
| `DateTimes.Instant` | backend_main/tracker/models.py:40-41 | a combined datetime's point on the time line splits back into its date ordinal and its time's microseconds |
| `DateTimes.LessIsEarlier` | backend_main/tracker/models.py:43 | `out_dt < in_dt`, compared field by field by `DateTimes.Less` (date ordinal, then `Clock.TupleLess` on the time fields), holds iff `out_dt` is earlier on the time line |
| `DateTimes.Plus` | backend_main/tracker/models.py:44 | `dt + td` succeeds iff the result's day lies in date.min..date.max, and then lies exactly `td` later than `dt` |
| `DateTimes.Minus` | backend_main/tracker/models.py:46 | `a - b` is a normalised timedelta whose length is the time from `b` to `a` |
| `Tracker.ValidateSubject` | backend_main/tracker/models.py:55 | a subject value is refused as blank when empty; otherwise it is accepted iff it is one of the seven codes, and then names the subject with that code; any other string is an invalid choice |
| `Tracker.CleanSubjectRecord` | backend_main/tracker/models.py:50-56 | a subject record is built from its fields exactly when its subject value passes validation, the owning record's existence not being checked: the record keeps the given owner and time spent and its subject has the given code; a blank or unknown value is refused with the matching error |
| `Tracker.CodesAndLabelsDistinct` | backend_main/tracker/models.py:6-14 | distinct subjects have distinct codes and distinct labels |
| `Tracker.Duration` | backend_main/tracker/models.py:40-46 | the duration has no days, lies in [0, 24h), and time-in plus duration is the time-out modulo 24h |
| `Tracker.DurationUnique` | backend_main/tracker/models.py:40-46 | any normalised delta in [0, 24h) that leads from time-in to time-out modulo 24h is the duration |
| `Tracker.DurationWhenOrdered` | backend_main/tracker/models.py:40-46 | when time-out is not earlier than time-in, the duration is time-out minus time-in |
| `Tracker.DurationAcrossMidnight` | backend_main/tracker/models.py:43-46 | when time-out is earlier than time-in, the duration is time-out plus 24h minus time-in |
| `Tracker.DurationOfEqualTimes` | backend_main/tracker/models.py:43 | equal time-in and time-out give a zero duration, not 24h (strict `<`) |
| `Tracker.DurationReachesTimeOut` | backend_main/tracker/models.py:40-46 | adding the duration to the time-in on any date except date.max when the session wraps lands on the time-out, on the same day or, for a wrapping session, the next |
| `Tracker.ScenarioDaytime` | backend_main/tracker/models.py:40-46 | 09:00 to 17:30 lasts 8:30:00 |
| `Tracker.ScenarioOvernight` | backend_main/tracker/models.py:43-46 | 22:00 to 06:00 lasts 8:00:00 |
| `Tracker.StudyRecord.constructor` | backend_main/tracker/models.py:21-26 | a new record holds exactly the given user, date, times, duration and description |
| `Tracker.StudyRecord.Save` | backend_main/tracker/models.py:38-46 | stores `Duration(timeIn, timeOut)` whatever was stored before and whatever `today` is; fails with OverflowError, leaving the record unchanged, exactly when `today` is date.max and the session wraps; no other field changes |
| `Tracker.SaveTwice` | backend_main/tracker/models.py:46 | saving twice changes only the stored duration, gives the same outcome both times, and stores the Duration of the times held before the first save (or leaves the old value on overflow) |

## Left out

- Persistence (`super().save(...)`, line 47), the `auto_now` and `auto_now_add` timestamps (lines 27-28, 57-58) and `Meta` ordering. These are Django ORM behaviour.
- Foreign keys and `on_delete=models.CASCADE` (lines 21 and 54). The framework and database perform cascade deletion. The user and the owning study record appear only as integer ids, and `ForeignKey.validate`'s database lookup, which refuses an id that names no existing row, is not modelled. Neither is the null check that refuses a missing `time_spent`.
- `datetime.today()` (line 39). It is a clock read, so `Save` takes the date as its parameter `today`.
- `__str__` methods (lines 35-36, 65-66). They only format values for display.
- `admin.py`. It only registers models with the admin site. It also imports `StaffModel` and `StudentModel`, which `models.py` does not define.
- Tracker.StudyRecord.Save: the model assumes `time_in` and `time_out` already hold `datetime.time` values, as they do after form cleaning or a load from the database. On an unsaved instance built without either field (`None`) or given a string in code (`objects.create(time_in="09:00", ...)`, converted only by `full_clean`), `datetime.combine` at lines 40-41 raises `TypeError`; that error path is not modelled.
- Tracker.ValidateSubject: the value is modelled as the string that `CharField.to_python` leaves. A `None` subject (`SubjectRecordModel(subject=None, ...)` then `full_clean()`) skips the choice scan and is refused with the `"null"` error, because the field is not `null=True`; that refusal is not modelled.
- Tracker.SubjectRecord models only validated subject records. Django's `Model.save()` does not check `choices`, so a record saved through the ORM without `full_clean` (`objects.create(subject="Xyz", ...)`) is stored with a code outside the seven; the model does not represent such a record.
- `SubjectRecordModel.time_spent` (line 56). It is an unconstrained timedelta in the code, and it stays unconstrained in the model.
- Time zones and `fold`. Django's `TimeField` values here are naive, and naive comparison ignores `fold`.
- Calendar dates are modelled as proleptic ordinals, not as (year, month, day).
- The ±999999999-day bound of `timedelta`. No value computed here comes near it.
