/**
 * The attendance rules of `markAttendance`: how a check-in time classifies
 * the day, how a check-out time revises it, and which requests are refused.
 * Everything here is a function of the day's existing record, the action
 * and the wall-clock time handed in by the clock adapter.
 */
module AttendancePolicy {
  import opened Wrappers
  import opened Directory
  import opened WallClock
  import opened AttendanceSchema

  // Check-in thresholds, in minutes since midnight.
  const GraceEnd := 550         // 09:10, last minute counted Present
  const LateEnd := 570          // 09:30, last minute counted Late
  const HalfDayEnd := 780       // 13:00, last minute counted Half-Day
  // Check-out thresholds, in minutes since midnight.
  const HalfDayThreshold := 960     // 16:00, leaving earlier is a Half-Day
  const EarlyLeaveThreshold := 1065 // 17:45, leaving earlier is an early leave
  const OfficeEnd := 1080           // 18:00, later minutes are overtime

  /** What a check-in decides about the day. */
  datatype CheckInClass = CheckInClass(status: Status, lateMarks: nat, isHalfDay: bool)

  /** The refusals of `markAttendance`. */
  datatype MarkError = AlreadyCheckedIn | MustCheckInFirst | AlreadyCheckedOut | InvalidAction

  /**
   * Classifies a check-in. Each status owns one interval of the day; the
   * lower classification wins on its boundary (09:10 is Present, 09:30 is
   * Late, 13:00 is Half-Day).
   */
  function ClassifyCheckIn(minutes: int): (r: CheckInClass)
    ensures r.status == Present <==> minutes <= GraceEnd
    ensures r.status == Late <==> GraceEnd < minutes <= LateEnd
    ensures r.status == HalfDay <==> LateEnd < minutes <= HalfDayEnd
    ensures r.status == Absent <==> HalfDayEnd < minutes
    ensures r.lateMarks == if r.status == Late then 1 else 0
    ensures r.isHalfDay <==> r.status == HalfDay
  {
    if minutes <= GraceEnd then CheckInClass(Present, 0, false)
    else if minutes <= LateEnd then CheckInClass(Late, 1, false)
    else if minutes <= HalfDayEnd then CheckInClass(HalfDay, 0, true)
    else CheckInClass(Absent, 0, false)
  }

  /** How much of the day a status forfeits: Present and Off nothing, Absent all of it. */
  function Severity(s: Status): nat {
    match s
    case Present => 0
    case Off => 0
    case Late => 1
    case HalfDay => 2
    case Absent => 3
  }

  /** Checking in later never yields a better classification. */
  lemma CheckInMonotone(earlier: int, later: int)
    requires earlier <= later
    ensures Severity(ClassifyCheckIn(earlier).status) <= Severity(ClassifyCheckIn(later).status)
  {
  }

  /**
   * Revises a checked-in record for a check-out at `minutes`. Only status,
   * isHalfDay, earlyLeaveMarks and overtimeMinutes can change.
   */
  function ClassifyCheckOut(minutes: int, prior: Attendance): (r: Attendance)
    ensures r.user == prior.user && r.date == prior.date
    ensures r.checkIn == prior.checkIn && r.checkOut == prior.checkOut && r.lateMarks == prior.lateMarks
    ensures minutes < HalfDayThreshold ==> r.status == HalfDay && r.isHalfDay && r.earlyLeaveMarks == Some(0)
    ensures HalfDayThreshold <= minutes ==> r.status == prior.status && r.isHalfDay == prior.isHalfDay
    ensures HalfDayThreshold <= minutes < EarlyLeaveThreshold ==>
      r.earlyLeaveMarks == if prior.status == HalfDay || prior.status == Absent then prior.earlyLeaveMarks else Some(1)
    ensures EarlyLeaveThreshold <= minutes ==> r.earlyLeaveMarks == Some(0)
    ensures r.overtimeMinutes.Some? && r.overtimeMinutes.value >= 0
    ensures minutes > OfficeEnd ==> r.overtimeMinutes.value == minutes - OfficeEnd
    ensures minutes <= OfficeEnd ==> r.overtimeMinutes.value == 0
  {
    var revised :=
      if minutes < HalfDayThreshold then
        prior.(status := HalfDay, isHalfDay := true, earlyLeaveMarks := Some(0))
      else if minutes < EarlyLeaveThreshold then
        if prior.status != HalfDay && prior.status != Absent then prior.(earlyLeaveMarks := Some(1)) else prior
      else
        prior.(earlyLeaveMarks := Some(0));
    revised.(overtimeMinutes := Some(if minutes > OfficeEnd then minutes - OfficeEnd else 0))
  }

  /** Overtime depends on the check-out time alone, never on how the day was classified. */
  lemma OvertimeIgnoresClassification(minutes: int, a: Attendance, b: Attendance)
    ensures ClassifyCheckOut(minutes, a).overtimeMinutes == ClassifyCheckOut(minutes, b).overtimeMinutes
  {
  }

  /** For any day not already Absent, a check-out can only confirm or worsen its status. */
  lemma CheckOutNeverImproves(minutes: int, prior: Attendance)
    requires prior.status != Absent
    ensures Severity(ClassifyCheckOut(minutes, prior).status) >= Severity(prior.status)
  {
  }

  /** An Absent day checked out before 16:00 becomes a Half-Day: the one case where check-out improves a status. */
  lemma CheckOutLiftsAbsent(minutes: int, prior: Attendance)
    requires prior.status == Absent && minutes < HalfDayThreshold
    ensures Severity(ClassifyCheckOut(minutes, prior).status) < Severity(prior.status)
  {
  }

  /**
   * The whole decision of `markAttendance` for one user and day: `prior` is the
   * day's record if one exists, `now` the wall-clock time of the request.
   */
  function Mark(prior: Option<Attendance>, user: UserId, date: string, action: string, now: Clock)
    : (r: Result<Attendance, MarkError>)
    requires ValidClock(now)
    requires prior.Some? ==> prior.value.user == user && prior.value.date == date
    ensures action != "check-in" && action != "check-out" ==> r == Err(InvalidAction)
    ensures action == "check-in" ==>
      (r == Err(AlreadyCheckedIn) <==> prior.Some? && prior.value.checkIn.Some?)
    ensures action == "check-out" ==>
      (r == Err(MustCheckInFirst) <==> prior.None? || prior.value.checkIn.None?)
    ensures action == "check-out" ==>
      (r == Err(AlreadyCheckedOut) <==> prior.Some? && prior.value.checkIn.Some? && prior.value.checkOut.Some?)
    ensures action == "check-in" ==> (r.Ok? <==> prior.None? || prior.value.checkIn.None?)
    ensures action == "check-out" ==>
      (r.Ok? <==> prior.Some? && prior.value.checkIn.Some? && prior.value.checkOut.None?)
    ensures r.Ok? ==> r.value.user == user && r.value.date == date && r.value.checkIn.Some?
    ensures r.Ok? && action == "check-in" ==>
      var c := ClassifyCheckIn(now.hour * 60 + now.minute);
      && r.value.checkIn == Some(FormatTime(now))
      && r.value.status == c.status && r.value.isHalfDay == c.isHalfDay && r.value.lateMarks == Some(c.lateMarks)
      && r.value.checkOut == (if prior.Some? then prior.value.checkOut else None)
      && r.value.earlyLeaveMarks == (if prior.Some? then prior.value.earlyLeaveMarks else Some(0))
      && r.value.overtimeMinutes == (if prior.Some? then prior.value.overtimeMinutes else Some(0))
    ensures r.Ok? && action == "check-out" ==>
      && prior.Some?
      && r.value == ClassifyCheckOut(now.hour * 60 + now.minute, prior.value).(checkOut := Some(FormatTime(now)))
    ensures r.Ok? && (prior.None? || Consistent(prior.value)) ==> Consistent(r.value)
  {
    var time := FormatTime(now);
    MinutesOfFormatTime(now);
    var minutes := MinutesOf(time).value;
    if action == "check-in" then
      if prior.Some? && prior.value.checkIn.Some? then Err(AlreadyCheckedIn)
      else
        var c := ClassifyCheckIn(minutes);
        var base := if prior.None? then NewAttendance(user, date) else prior.value;
        Ok(base.(checkIn := Some(time), status := c.status, isHalfDay := c.isHalfDay, lateMarks := Some(c.lateMarks)))
    else if action == "check-out" then
      if prior.None? || prior.value.checkIn.None? then Err(MustCheckInFirst)
      else if prior.value.checkOut.Some? then Err(AlreadyCheckedOut)
      else Ok(ClassifyCheckOut(minutes, prior.value).(checkOut := Some(time)))
    else
      Err(InvalidAction)
  }

  /**
   * A 09:20 check-in followed by a 15:00 check-out leaves a Half-Day that
   * still carries its late mark: a report that sums lateMarks counts this
   * day as late, a count of `Late` statuses does not.
   */
  lemma LateMarkOutlivesLateStatus(user: UserId, date: string)
    ensures var checkedIn := Mark(None, user, date, "check-in", Clock(9, 20, 0));
      && checkedIn.Ok? && checkedIn.value.status == Late && checkedIn.value.lateMarks == Some(1)
      && var checkedOut := Mark(Some(checkedIn.value), user, date, "check-out", Clock(15, 0, 0));
      && checkedOut.Ok? && checkedOut.value.status == HalfDay && checkedOut.value.lateMarks == Some(1)
  {
    MinutesOfFormatTime(Clock(9, 20, 0));
    MinutesOfFormatTime(Clock(15, 0, 0));
  }

  /** A second check-in on the same day is refused, whatever the time. */
  lemma SecondCheckInRefused(user: UserId, date: string, first: Clock, second: Clock)
    requires ValidClock(first) && ValidClock(second)
    ensures var r := Mark(None, user, date, "check-in", first);
      r.Ok? && Mark(Some(r.value), user, date, "check-in", second) == Err(AlreadyCheckedIn)
  {
  }
}
