/**
 * The schedule-upload request body: its shape check (`Validate`) and its
 * flattening into store rows (`TransformToEntities`).
 */
module GroupRequest {
  import opened Wrappers
  import opened ScheduleEntity

  datatype SubjectRequest = SubjectRequest(
    name: string,
    room: string,
    teacher: string,
    typeId: nat,
    buildingId: nat,
    startTime: string,
    endTime: string)

  datatype DayRequest = DayRequest(dayNumber: int, subjects: seq<SubjectRequest>)

  datatype WeekRequest = WeekRequest(isEven: bool, days: seq<DayRequest>)

  datatype UploadScheduleRequest = UploadScheduleRequest(weeks: seq<WeekRequest>)

  /** The three rejections `Validate` can give. */
  datatype ValidationError = WrongLengthOfWeeks | WrongLengthOfDays | WrongEvenOfWeeks

  function ValidationMessage(e: ValidationError): string {
    match e
    case WrongLengthOfWeeks => "UploadScheduleRequest wrong length of weeks "
    case WrongLengthOfDays => "UploadScheduleRequest wrong length of days "
    case WrongEvenOfWeeks => "UploadScheduleRequest wrong even of weeks"
  }

  /** The three refusal texts differ, so each text names its kind. */
  lemma ValidationMessagesDistinct(e1: ValidationError, e2: ValidationError)
    requires ValidationMessage(e1) == ValidationMessage(e2)
    ensures e1 == e2
  {
  }

  // ---------------------------------------------------------------------------
  // Validate
  // ---------------------------------------------------------------------------

  /**
   * `UploadScheduleRequest.Validate` as written. `None` is Go's nil error. With two
   * weeks the "at least one day" test looks at the second week twice, so the first
   * week may be empty.
   */
  function Validate(u: UploadScheduleRequest): (r: Option<ValidationError>)
    ensures |u.weeks| != 1 && |u.weeks| != 2 ==> r == Some(WrongLengthOfWeeks)
    ensures |u.weeks| == 1 ==> (r == None <==> 1 <= |u.weeks[0].days| <= 7)
    ensures |u.weeks| == 1 && r != None ==> r == Some(WrongLengthOfDays)
    ensures |u.weeks| == 2 ==>
      (r == None <==>
        |u.weeks[0].days| <= 7 && 1 <= |u.weeks[1].days| <= 7 &&
        u.weeks[0].isEven != u.weeks[1].isEven)
    ensures |u.weeks| == 2 && (|u.weeks[0].days| > 7 || |u.weeks[1].days| > 7 || |u.weeks[1].days| < 1)
      ==> r == Some(WrongLengthOfDays)
    ensures (|u.weeks| == 2 && |u.weeks[0].days| <= 7 && 1 <= |u.weeks[1].days| <= 7 &&
             u.weeks[0].isEven == u.weeks[1].isEven) ==> r == Some(WrongEvenOfWeeks)
  {
    if |u.weeks| != 1 && |u.weeks| != 2 then Some(WrongLengthOfWeeks)
    else if |u.weeks| == 1 && (|u.weeks[0].days| > 7 || |u.weeks[0].days| < 1) then Some(WrongLengthOfDays)
    else if |u.weeks| == 2 && (|u.weeks[0].days| > 7 || |u.weeks[1].days| > 7) then Some(WrongLengthOfDays)
    else if |u.weeks| == 2 && (|u.weeks[1].days| < 1 || |u.weeks[1].days| < 1) then Some(WrongLengthOfDays)
    else if |u.weeks| == 2 && u.weeks[0].isEven == u.weeks[1].isEven then Some(WrongEvenOfWeeks)
    else None
  }

  /** The text of every refusal: the week count is checked first, then the day counts, then the parities. */
  lemma ValidateMessages(u: UploadScheduleRequest)
    ensures Validate(u).Some? ==>
      ValidationMessage(Validate(u).value)
        == if |u.weeks| != 1 && |u.weeks| != 2 then "UploadScheduleRequest wrong length of weeks "
           else if |u.weeks| == 2 && |u.weeks[0].days| <= 7 && 1 <= |u.weeks[1].days| <= 7
           then "UploadScheduleRequest wrong even of weeks"
           else "UploadScheduleRequest wrong length of days "
  {
  }

  /** What `Validate` looks at: the number of weeks, each week's day count and each week's parity. */
  function Shape(u: UploadScheduleRequest): seq<(bool, nat)> {
    seq(|u.weeks|, i requires 0 <= i < |u.weeks| => (u.weeks[i].isEven, |u.weeks[i].days|))
  }

  /** Day numbers and subjects are never inspected: requests of the same shape get the same verdict. */
  lemma ValidateDependsOnlyOnShape(u: UploadScheduleRequest, v: UploadScheduleRequest)
    requires Shape(u) == Shape(v)
    ensures Validate(u) == Validate(v)
  {
    assert |u.weeks| == |Shape(u)| == |Shape(v)| == |v.weeks|;
    forall i | 0 <= i < |u.weeks|
      ensures u.weeks[i].isEven == v.weeks[i].isEven && |u.weeks[i].days| == |v.weeks[i].days|
    {
      assert Shape(u)[i] == Shape(v)[i];
    }
  }

  /** As written, a two-week request whose first week has no days passes. */
  lemma ValidateAcceptsEmptyFirstWeek(oneDay: DayRequest)
    ensures Validate(UploadScheduleRequest([WeekRequest(false, []), WeekRequest(true, [oneDay])])) == None
  {
  }

  /** The check the two-week branch evidently means: both weeks hold between 1 and 7 days. */
  function ValidateIntended(u: UploadScheduleRequest): (r: Option<ValidationError>)
    ensures r == None <==>
      (|u.weeks| == 1 || |u.weeks| == 2) &&
      (forall i :: 0 <= i < |u.weeks| ==> 1 <= |u.weeks[i].days| <= 7) &&
      (|u.weeks| == 2 ==> u.weeks[0].isEven != u.weeks[1].isEven)
    ensures r == None ==> Validate(u) == None
  {
    if |u.weeks| != 1 && |u.weeks| != 2 then Some(WrongLengthOfWeeks)
    else if |u.weeks| == 1 && (|u.weeks[0].days| > 7 || |u.weeks[0].days| < 1) then Some(WrongLengthOfDays)
    else if |u.weeks| == 2 && (|u.weeks[0].days| > 7 || |u.weeks[1].days| > 7) then Some(WrongLengthOfDays)
    else if |u.weeks| == 2 && (|u.weeks[0].days| < 1 || |u.weeks[1].days| < 1) then Some(WrongLengthOfDays)
    else if |u.weeks| == 2 && u.weeks[0].isEven == u.weeks[1].isEven then Some(WrongEvenOfWeeks)
    else None
  }

  /** The corrected check accepts what the written one accepts, except two-week requests with an empty first week. */
  lemma ValidateIntendedAcceptance(u: UploadScheduleRequest)
    ensures ValidateIntended(u) == None <==>
      Validate(u) == None && !(|u.weeks| == 2 && |u.weeks[0].days| == 0)
  {
  }

  // ---------------------------------------------------------------------------
  // TransformToEntities
  // ---------------------------------------------------------------------------

  /** The store row for one subject of a day of a week. */
  function SubjectEntry(groupId: nat, isEven: bool, dayNumber: int, s: SubjectRequest): Entry {
    Entry(groupId, s.buildingId, s.typeId, s.name, s.teacher, s.room, isEven, dayNumber, s.startTime, s.endTime)
  }

  /** The rows of one day, one per subject, in subject order. */
  function DayEntries(groupId: nat, isEven: bool, day: DayRequest): (r: seq<Entry>)
    ensures |r| == |day.subjects|
  {
    seq(|day.subjects|, k requires 0 <= k < |day.subjects| =>
      SubjectEntry(groupId, isEven, day.dayNumber, day.subjects[k]))
  }

  /** The rows of a sequence of days of one week, day after day. */
  function DaysEntries(groupId: nat, isEven: bool, days: seq<DayRequest>): seq<Entry>
    decreases |days|
  {
    if |days| == 0 then []
    else DaysEntries(groupId, isEven, days[..|days| - 1]) + DayEntries(groupId, isEven, days[|days| - 1])
  }

  /** The rows of a sequence of weeks, week after week. */
  function WeeksEntries(groupId: nat, weeks: seq<WeekRequest>): seq<Entry>
    decreases |weeks|
  {
    if |weeks| == 0 then []
    else (WeeksEntries(groupId, weeks[..|weeks| - 1])
          + DaysEntries(groupId, weeks[|weeks| - 1].isEven, weeks[|weeks| - 1].days))
  }

  /** Number of subjects over a sequence of days. */
  function DaysSubjects(days: seq<DayRequest>): nat
    decreases |days|
  {
    if |days| == 0 then 0 else DaysSubjects(days[..|days| - 1]) + |days[|days| - 1].subjects|
  }

  /** Number of subjects over a sequence of weeks. */
  function WeeksSubjects(weeks: seq<WeekRequest>): nat
    decreases |weeks|
  {
    if |weeks| == 0 then 0 else WeeksSubjects(weeks[..|weeks| - 1]) + DaysSubjects(weeks[|weeks| - 1].days)
  }

  /**
   * `UploadScheduleRequest.TransformToEntities`: the triple loop over weeks, days and
   * subjects, appending one row per subject. The loop over the days of a week and the
   * loop over the subjects of a day are the two methods below, each appending to the
   * same growing sequence.
   */
  method TransformToEntities(u: UploadScheduleRequest, groupId: nat) returns (schedules: seq<Entry>)
    ensures schedules == WeeksEntries(groupId, u.weeks)
  {
    schedules := [];
    for i := 0 to |u.weeks|
      invariant schedules == WeeksEntries(groupId, u.weeks[..i])
    {
      schedules := AppendWeek(schedules, groupId, u.weeks[i]);
      WeeksEntriesStep(groupId, u.weeks, i);
    }
    assert u.weeks[..|u.weeks|] == u.weeks;
  }

  /** The middle loop: appends the rows of every day of `week`, day after day. */
  method AppendWeek(before: seq<Entry>, groupId: nat, week: WeekRequest) returns (schedules: seq<Entry>)
    ensures schedules == before + DaysEntries(groupId, week.isEven, week.days)
  {
    schedules := before;
    for j := 0 to |week.days|
      invariant schedules == before + DaysEntries(groupId, week.isEven, week.days[..j])
    {
      ghost var prev := DaysEntries(groupId, week.isEven, week.days[..j]);
      schedules := AppendDay(schedules, groupId, week.isEven, week.days[j]);
      assert schedules == before + (prev + DayEntries(groupId, week.isEven, week.days[j]));
      DaysEntriesStep(groupId, week.isEven, week.days, j);
    }
    assert week.days[..|week.days|] == week.days;
  }

  /** The innermost loop: appends one row per subject of `day`, carrying the week's parity and the day's number. */
  method AppendDay(before: seq<Entry>, groupId: nat, isEven: bool, day: DayRequest) returns (schedules: seq<Entry>)
    ensures schedules == before + DayEntries(groupId, isEven, day)
  {
    schedules := before;
    ghost var rows := DayEntries(groupId, isEven, day);
    for k := 0 to |day.subjects|
      invariant schedules == before + rows[..k]
    {
      var subject := day.subjects[k];
      var entry := Entry(groupId, subject.buildingId, subject.typeId, subject.name, subject.teacher,
                         subject.room, isEven, day.dayNumber, subject.startTime, subject.endTime);
      assert rows[k] == entry;
      assert rows[..k + 1] == rows[..k] + [entry];
      schedules := schedules + [entry];
    }
    assert rows[..|day.subjects|] == rows;
  }

  /** One more day extends the rows by that day's rows. */
  lemma DaysEntriesStep(groupId: nat, isEven: bool, days: seq<DayRequest>, j: nat)
    requires j < |days|
    ensures DaysEntries(groupId, isEven, days[..j + 1])
      == DaysEntries(groupId, isEven, days[..j]) + DayEntries(groupId, isEven, days[j])
  {
    assert days[..j + 1][..j] == days[..j];
  }

  /** One more week extends the rows by that week's rows. */
  lemma WeeksEntriesStep(groupId: nat, weeks: seq<WeekRequest>, i: nat)
    requires i < |weeks|
    ensures WeeksEntries(groupId, weeks[..i + 1])
      == WeeksEntries(groupId, weeks[..i]) + DaysEntries(groupId, weeks[i].isEven, weeks[i].days)
  {
    assert weeks[..i + 1][..i] == weeks[..i];
  }

  /** The rows of consecutive runs of days concatenate. */
  lemma {:induction false} DaysEntriesAppend(groupId: nat, isEven: bool, a: seq<DayRequest>, b: seq<DayRequest>)
    ensures DaysEntries(groupId, isEven, a + b) == DaysEntries(groupId, isEven, a) + DaysEntries(groupId, isEven, b)
    ensures DaysSubjects(a + b) == DaysSubjects(a) + DaysSubjects(b)
    decreases |b|
  {
    if |b| == 0 {
      assert a + b == a;
    } else {
      var b' := b[..|b| - 1];
      assert (a + b)[..|a + b| - 1] == a + b';
      assert (a + b)[|a + b| - 1] == b[|b| - 1];
      DaysEntriesAppend(groupId, isEven, a, b');
      assert DaysEntries(groupId, isEven, a + b) == DaysEntries(groupId, isEven, a + b') + DayEntries(groupId, isEven, b[|b| - 1]);
      assert DaysEntries(groupId, isEven, b) == DaysEntries(groupId, isEven, b') + DayEntries(groupId, isEven, b[|b| - 1]);
    }
  }

  /** The rows of consecutive runs of weeks concatenate. */
  lemma {:induction false} WeeksEntriesAppend(groupId: nat, a: seq<WeekRequest>, b: seq<WeekRequest>)
    ensures WeeksEntries(groupId, a + b) == WeeksEntries(groupId, a) + WeeksEntries(groupId, b)
    ensures WeeksSubjects(a + b) == WeeksSubjects(a) + WeeksSubjects(b)
    decreases |b|
  {
    if |b| == 0 {
      assert a + b == a;
    } else {
      var b' := b[..|b| - 1];
      assert (a + b)[..|a + b| - 1] == a + b';
      assert (a + b)[|a + b| - 1] == b[|b| - 1];
      WeeksEntriesAppend(groupId, a, b');
      assert WeeksEntries(groupId, a + b) == WeeksEntries(groupId, a + b') + DaysEntries(groupId, b[|b| - 1].isEven, b[|b| - 1].days);
      assert WeeksEntries(groupId, b) == WeeksEntries(groupId, b') + DaysEntries(groupId, b[|b| - 1].isEven, b[|b| - 1].days);
    }
  }

  /** As many rows as subjects over a run of days. */
  lemma {:induction false} DaysEntriesLength(groupId: nat, isEven: bool, days: seq<DayRequest>)
    ensures |DaysEntries(groupId, isEven, days)| == DaysSubjects(days)
    decreases |days|
  {
    if |days| > 0 {
      DaysEntriesLength(groupId, isEven, days[..|days| - 1]);
    }
  }

  /** The output holds exactly one row per subject of the request. */
  lemma {:induction false} TransformLength(groupId: nat, weeks: seq<WeekRequest>)
    ensures |WeeksEntries(groupId, weeks)| == WeeksSubjects(weeks)
    decreases |weeks|
  {
    if |weeks| > 0 {
      TransformLength(groupId, weeks[..|weeks| - 1]);
      DaysEntriesLength(groupId, weeks[|weeks| - 1].isEven, weeks[|weeks| - 1].days);
    }
  }

  /** Indexing into the middle part of a three-part concatenation. */
  lemma IndexMiddle<T>(a: seq<T>, b: seq<T>, c: seq<T>, i: nat)
    requires i < |b|
    ensures |a| + i < |a + b + c| && (a + b + c)[|a| + i] == b[i]
  {
  }

  /** The rows of a week sequence split around week `w`. */
  lemma WeeksEntriesAround(groupId: nat, weeks: seq<WeekRequest>, w: nat)
    requires w < |weeks|
    ensures WeeksEntries(groupId, weeks)
      == WeeksEntries(groupId, weeks[..w]) + DaysEntries(groupId, weeks[w].isEven, weeks[w].days)
         + WeeksEntries(groupId, weeks[w + 1..])
  {
    var pre, rest := weeks[..w], weeks[w + 1..];
    assert weeks == pre + [weeks[w]] + rest;
    WeeksEntriesAppend(groupId, pre + [weeks[w]], rest);
    WeeksEntriesAppend(groupId, pre, [weeks[w]]);
    assert [weeks[w]][..0] == [];
  }

  /** The rows of a day sequence split around day `d`. */
  lemma DaysEntriesAround(groupId: nat, isEven: bool, days: seq<DayRequest>, d: nat)
    requires d < |days|
    ensures DaysEntries(groupId, isEven, days)
      == DaysEntries(groupId, isEven, days[..d]) + DayEntries(groupId, isEven, days[d])
         + DaysEntries(groupId, isEven, days[d + 1..])
  {
    var pre, rest := days[..d], days[d + 1..];
    assert days == pre + [days[d]] + rest;
    DaysEntriesAppend(groupId, isEven, pre + [days[d]], rest);
    DaysEntriesAppend(groupId, isEven, pre, [days[d]]);
    assert [days[d]][..0] == [];
  }

  /** Subject `k` of day `d` sits after the subjects of the earlier days, and is that subject's row. */
  lemma DaysEntriesAt(groupId: nat, isEven: bool, days: seq<DayRequest>, d: nat, k: nat)
    requires d < |days| && k < |days[d].subjects|
    ensures DaysSubjects(days[..d]) + k < |DaysEntries(groupId, isEven, days)|
    ensures DaysEntries(groupId, isEven, days)[DaysSubjects(days[..d]) + k]
      == SubjectEntry(groupId, isEven, days[d].dayNumber, days[d].subjects[k])
  {
    DaysEntriesAround(groupId, isEven, days, d);
    DaysEntriesLength(groupId, isEven, days[..d]);
    IndexMiddle(DaysEntries(groupId, isEven, days[..d]), DayEntries(groupId, isEven, days[d]),
      DaysEntries(groupId, isEven, days[d + 1..]), k);
  }

  /**
   * Week-major, then day, then subject order: subject `k` of day `d` of week `w` is
   * the row at offset (subjects of the earlier weeks) + (subjects of the earlier days
   * of week `w`) + `k`, and it carries the group id, the week's parity, the day's
   * number and the subject's fields unchanged.
   */
  lemma TransformAt(groupId: nat, weeks: seq<WeekRequest>, w: nat, d: nat, k: nat)
    requires w < |weeks| && d < |weeks[w].days| && k < |weeks[w].days[d].subjects|
    ensures WeeksSubjects(weeks[..w]) + DaysSubjects(weeks[w].days[..d]) + k < |WeeksEntries(groupId, weeks)|
    ensures WeeksEntries(groupId, weeks)[WeeksSubjects(weeks[..w]) + DaysSubjects(weeks[w].days[..d]) + k]
      == SubjectEntry(groupId, weeks[w].isEven, weeks[w].days[d].dayNumber, weeks[w].days[d].subjects[k])
  {
    var week := weeks[w];
    WeeksEntriesAround(groupId, weeks, w);
    TransformLength(groupId, weeks[..w]);
    DaysEntriesAt(groupId, week.isEven, week.days, d, k);
    IndexMiddle(WeeksEntries(groupId, weeks[..w]), DaysEntries(groupId, week.isEven, week.days),
      WeeksEntries(groupId, weeks[w + 1..]), DaysSubjects(week.days[..d]) + k);
  }

  /** Every row carries the group id the request was flattened for. */
  lemma {:induction false} TransformCarriesGroupId(groupId: nat, weeks: seq<WeekRequest>)
    ensures forall e :: e in WeeksEntries(groupId, weeks) ==> e.groupId == groupId
    decreases |weeks|
  {
    if |weeks| > 0 {
      TransformCarriesGroupId(groupId, weeks[..|weeks| - 1]);
      DaysCarryGroupId(groupId, weeks[|weeks| - 1].isEven, weeks[|weeks| - 1].days);
    }
  }

  lemma {:induction false} DaysCarryGroupId(groupId: nat, isEven: bool, days: seq<DayRequest>)
    ensures forall e :: e in DaysEntries(groupId, isEven, days) ==> e.groupId == groupId && e.isEven == isEven
    decreases |days|
  {
    if |days| > 0 {
      DaysCarryGroupId(groupId, isEven, days[..|days| - 1]);
    }
  }
}
