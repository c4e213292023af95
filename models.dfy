/**
 * The study tracker's models: a study session (`StudyRecordModel`) whose
 * total duration is derived from its time-in and time-out every time it is
 * saved, and a per-subject breakdown (`SubjectRecordModel`) whose subject is
 * validated against seven fixed codes.
 */
module Tracker {
  import opened Wrappers
  import opened Clock
  import opened Deltas
  import opened DateTimes

  // ---------------------------------------------------------------------
  // Subjects
  // ---------------------------------------------------------------------

  /** The subjects a subject record can be about, in the order of `SubjectChoices`. */
  datatype Subject = Tam | Eng | Math | Sci | SS | Comp | Other

  /** `SUBJECT_CHOICES`: (stored code, human-readable label) pairs. */
  const SubjectChoices: seq<(string, string)> := [
    ("Tam", "Tamil"),
    ("Eng", "English"),
    ("Math", "Mathematics"),
    ("Sci", "Science"),
    ("SS", "Social Studies"),
    ("Comp", "Computer Science"),
    ("Other", "Other")
  ]

  const Subjects: seq<Subject> := [Tam, Eng, Math, Sci, SS, Comp, Other]

  /** The position of a subject's pair in the choice list. */
  function Index(s: Subject): (i: nat)
    ensures i < |SubjectChoices| == |Subjects| && Subjects[i] == s
  {
    match s
    case Tam => 0
    case Eng => 1
    case Math => 2
    case Sci => 3
    case SS => 4
    case Comp => 5
    case Other => 6
  }

  /** The code stored in the database column. */
  function Code(s: Subject): string {
    SubjectChoices[Index(s)].0
  }

  /** The label shown for a subject. */
  function Label(s: Subject): string {
    SubjectChoices[Index(s)].1
  }

  /** Distinct subjects have distinct codes and distinct labels. */
  lemma {:induction false} CodesAndLabelsDistinct(s: Subject, t: Subject)
    requires s != t
    ensures Code(s) != Code(t) && Label(s) != Label(t)
  {
  }

  /** Why a value is refused for a field with choices. */
  datatype ChoiceError = Blank | InvalidChoice

  /**
   * Field validation of `subject`: an empty value is refused as blank (the
   * field is not `blank=True`); any other value is looked up in the choice
   * list, pair by pair, and is refused unless it is one of the codes.
   */
  method ValidateSubject(value: string) returns (r: Result<Subject, ChoiceError>)
    ensures value == "" ==> r == Err(Blank)
    ensures r.Ok? ==> Code(r.value) == value
    ensures value != "" && r.Err? ==> r.error == InvalidChoice && forall s: Subject :: Code(s) != value
  {
    if value == "" {
      return Err(Blank);
    }
    for i := 0 to |SubjectChoices|
      invariant forall j :: 0 <= j < i ==> SubjectChoices[j].0 != value
    {
      if SubjectChoices[i].0 == value {
        assert Index(Subjects[i]) == i;
        return Ok(Subjects[i]);
      }
    }
    return Err(InvalidChoice);
  }

  /**
   * `SubjectRecordModel` after validation: one subject's share of a study
   * session, with the owning study record referred to by its primary key.
   */
  datatype SubjectRecord = SubjectRecord(studyRecord: nat, subject: Subject, timeSpent: NormalDelta)

  /**
   * Field validation of a subject record. Only the `subject` rule is
   * modelled; the existence check on the owning record and the null check on
   * `time_spent` are left out, and both values are taken as given.
   */
  method CleanSubjectRecord(studyRecord: nat, subject: string, timeSpent: NormalDelta)
    returns (r: Result<SubjectRecord, ChoiceError>)
    ensures r.Ok? ==> r.value.studyRecord == studyRecord && r.value.timeSpent == timeSpent
    ensures r.Ok? ==> Code(r.value.subject) == subject
    ensures subject == "" ==> r == Err(Blank)
    ensures subject != "" && r.Err? ==> r.error == InvalidChoice && forall s: Subject :: Code(s) != subject
  {
    var checked := ValidateSubject(subject);
    match checked
    case Ok(s) => r := Ok(SubjectRecord(studyRecord, s, timeSpent));
    case Err(e) => r := Err(e);
  }

  // ---------------------------------------------------------------------
  // Session duration
  // ---------------------------------------------------------------------

  /**
   * The length of a session that starts at `tin` and ends at `tout`, at most
   * one midnight later: the unique delta in [0, 24h) that leads from the
   * time-in round the clock to the time-out.
   */
  function Duration(tin: ClockTime, tout: ClockTime): (r: NormalDelta)
    ensures r.days == 0
    ensures 0 <= TotalMicros(r) < MicrosPerDay
    ensures (Micros(tin) + TotalMicros(r)) % MicrosPerDay == Micros(tout)
  {
    var i, o := Micros(tin), Micros(tout);
    var m := if o < i then o + MicrosPerDay - i else o - i;
    DivModUnique(i + m, MicrosPerDay, if o < i then 1 else 0, o);
    FromMicros(m)
  }

  /** A session that does not wrap lasts from time-in to time-out. */
  lemma {:induction false} DurationWhenOrdered(tin: ClockTime, tout: ClockTime)
    requires Micros(tin) <= Micros(tout)
    ensures TotalMicros(Duration(tin, tout)) == Micros(tout) - Micros(tin)
  {
  }

  /** A session whose time-out is earlier than its time-in crosses midnight. */
  lemma {:induction false} DurationAcrossMidnight(tin: ClockTime, tout: ClockTime)
    requires Micros(tout) < Micros(tin)
    ensures TotalMicros(Duration(tin, tout)) == Micros(tout) + MicrosPerDay - Micros(tin)
  {
  }

  /** Equal time-in and time-out make an empty session, not a whole day. */
  lemma {:induction false} DurationOfEqualTimes(t: ClockTime)
    ensures Duration(t, t) == TimeDelta(0, 0, 0)
  {
    DurationUnique(t, t, TimeDelta(0, 0, 0));
  }

  /** Any delta in [0, 24h) that leads round the clock from `tin` to `tout` is the duration. */
  lemma {:induction false} DurationUnique(tin: ClockTime, tout: ClockTime, d: NormalDelta)
    requires 0 <= TotalMicros(d) < MicrosPerDay
    requires (Micros(tin) + TotalMicros(d)) % MicrosPerDay == Micros(tout)
    ensures d == Duration(tin, tout)
  {
    var r := Duration(tin, tout);
    var i, o := Micros(tin), Micros(tout);
    WrapsOnce(i, TotalMicros(d), o);
    WrapsOnce(i, TotalMicros(r), o);
    LengthDetermines(d, r);
  }

  /** Going round the clock by less than a day wraps at most once. */
  lemma {:induction false} WrapsOnce(i: nat, m: nat, o: nat)
    requires i < MicrosPerDay && m < MicrosPerDay && (i + m) % MicrosPerDay == o
    ensures m == if o < i then o + MicrosPerDay - i else o - i
  {
    if i + m < MicrosPerDay {
      DivModUnique(i + m, MicrosPerDay, 0, i + m);
    } else {
      DivModUnique(i + m, MicrosPerDay, 1, i + m - MicrosPerDay);
    }
  }

  /**
   * Adding the duration to the time-in, as a datetime on any date that
   * leaves room for the next day when needed, lands on the time-out: on the
   * same day, or on the next one when the session crosses midnight.
   */
  lemma {:induction false} DurationReachesTimeOut(date: Ordinal, tin: ClockTime, tout: ClockTime)
    requires date < MaxOrdinal || Micros(tin) <= Micros(tout)
    ensures Plus(DateTime(date, tin), Duration(tin, tout)).Some?
    ensures Plus(DateTime(date, tin), Duration(tin, tout)).value.time == tout
    ensures Plus(DateTime(date, tin), Duration(tin, tout)).value.date
            == if Micros(tout) < Micros(tin) then date + 1 else date
  {
    var start := DateTime(date, tin);
    var d := Duration(tin, tout);
    if Micros(tout) < Micros(tin) {
      DurationAcrossMidnight(tin, tout);
      assert Plus(start, d).Some?;
      DivModUnique(Instant(Plus(start, d).value), MicrosPerDay, date + 1, Micros(tout));
    } else {
      DurationWhenOrdered(tin, tout);
      assert Plus(start, d).Some?;
      DivModUnique(Instant(Plus(start, d).value), MicrosPerDay, date, Micros(tout));
    }
    MicrosInjective(Plus(start, d).value.time, tout);
  }

  /** 09:00 to 17:30 is eight and a half hours. */
  lemma ScenarioDaytime()
    ensures Duration(Time(9, 0, 0, 0), Time(17, 30, 0, 0)) == TimeDelta(0, 8 * 3600 + 30 * 60, 0)
  {
  }

  /** 22:00 to 06:00 is eight hours across midnight. */
  lemma ScenarioOvernight()
    ensures Duration(Time(22, 0, 0, 0), Time(6, 0, 0, 0)) == TimeDelta(0, 8 * 3600, 0)
  {
  }

  // ---------------------------------------------------------------------
  // Study records
  // ---------------------------------------------------------------------

  /** The error `out_dt += timedelta(days=1)` raises past `date.max`. */
  datatype SaveError = OverflowError

  /** A user account, referred to by its primary key. */
  type UserId = nat

  /** `StudyRecordModel`: one logged study session. */
  class StudyRecord {
    var name: UserId
    var date: Ordinal
    var timeIn: ClockTime
    var timeOut: ClockTime
    /** `None` until a value is supplied or derived. */
    var totalDuration: Option<NormalDelta>
    var description: Option<string>

    constructor (name: UserId, date: Ordinal, timeIn: ClockTime, timeOut: ClockTime,
                 totalDuration: Option<NormalDelta>, description: Option<string>)
      ensures this.name == name && this.date == date
      ensures this.timeIn == timeIn && this.timeOut == timeOut
      ensures this.totalDuration == totalDuration && this.description == description
    {
      this.name := name;
      this.date := date;
      this.timeIn := timeIn;
      this.timeOut := timeOut;
      this.totalDuration := totalDuration;
      this.description := description;
    }

    /**
     * Derives the total duration before the record is persisted. Both times
     * are placed on `today` (the date the clock reports, whatever it is); a
     * time-out earlier than the time-in is moved to the next day. The stored
     * value is then the session's Duration, whatever was there before, and
     * does not depend on `today` — except that on `date.max` moving to the
     * next day overflows, and the record is left as it was.
     */
    method Save(today: Ordinal) returns (outcome: Outcome<SaveError>)
      modifies this`totalDuration
      ensures outcome == if today == MaxOrdinal && Micros(timeOut) < Micros(timeIn)
                         then Fail(OverflowError) else Pass
      ensures outcome.Pass? ==> totalDuration == Some(Duration(timeIn, timeOut))
      ensures outcome.Fail? ==> totalDuration == old(totalDuration)
      ensures name == old(name) && date == old(date) && description == old(description)
      ensures timeIn == old(timeIn) && timeOut == old(timeOut)
    {
      var dummyDate := today;
      var inDt := DateTime(dummyDate, timeIn);
      var outDt := DateTime(dummyDate, timeOut);
      LessIsEarlier(outDt, inDt);
      if Less(outDt, inDt) {
        var shifted := Plus(outDt, OneDay);
        if shifted.None? {
          return Fail(OverflowError);
        }
        outDt := shifted.value;
      }
      var elapsed := Minus(outDt, inDt);
      assert TotalMicros(elapsed) == TotalMicros(Duration(timeIn, timeOut)) by {
        if Micros(timeOut) < Micros(timeIn) {
          DurationAcrossMidnight(timeIn, timeOut);
        } else {
          DurationWhenOrdered(timeIn, timeOut);
        }
      }
      LengthDetermines(elapsed, Duration(timeIn, timeOut));
      totalDuration := Some(elapsed);
      outcome := Pass;
    }
  }

  /**
   * Saving a record a second time gives the same outcome and stores the same
   * duration, derived from the times the record held before either save.
   */
  method SaveTwice(record: StudyRecord, today: Ordinal) returns (first: Outcome<SaveError>, second: Outcome<SaveError>)
    modifies record`totalDuration
    ensures first == second
    ensures first == if today == MaxOrdinal && Micros(old(record.timeOut)) < Micros(old(record.timeIn))
                     then Fail(OverflowError) else Pass
    ensures first.Pass? ==> record.totalDuration == Some(Duration(old(record.timeIn), old(record.timeOut)))
    ensures first.Fail? ==> record.totalDuration == old(record.totalDuration)
  {
    first := record.Save(today);
    second := record.Save(today);
  }
}
