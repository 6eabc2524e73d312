/**
 * The attendance collection and the `markAttendance` request that updates
 * it. Records are keyed by (user, date), so the one-record-per-day rule that
 * the controller keeps only through its lookup-before-write is part of the
 * store's invariant.
 */
module AttendanceStore {
  import opened Wrappers
  import opened Directory
  import opened WallClock
  import opened AttendanceSchema
  import opened AttendancePolicy

  type DayKey = (UserId, string)

  /** Every stored record sits under its own (user, date) key and is consistent. */
  ghost predicate WellKeyed(records: map<DayKey, Attendance>) {
    forall k :: k in records ==> records[k].user == k.0 && records[k].date == k.1 && Consistent(records[k])
  }

  /** The `findOne({ user, date })` lookup. */
  function Find(records: map<DayKey, Attendance>, user: UserId, date: string): (r: Option<Attendance>)
    ensures r.Some? <==> (user, date) in records
    ensures r.Some? ==> r.value == records[(user, date)]
  {
    if (user, date) in records then Some(records[(user, date)]) else None
  }

  /** The controller's if-chain that grades an arrival time (minutes after midnight). */
  method ClassifyArrival(totalMinutes: int) returns (status: Status, lateMarks: nat, isHalfDay: bool)
    ensures CheckInClass(status, lateMarks, isHalfDay) == ClassifyCheckIn(totalMinutes)
  {
    status, lateMarks, isHalfDay := Present, 0, false;
    if totalMinutes <= GraceEnd {
      status, lateMarks := Present, 0;
    } else if totalMinutes <= LateEnd {
      status, lateMarks := Late, 1;
    } else if totalMinutes <= HalfDayEnd {
      status, isHalfDay, lateMarks := HalfDay, true, 0;
    } else {
      status, lateMarks := Absent, 0;
    }
  }

  /**
   * The controller's field-by-field update of a record at check-out time
   * (minutes after midnight): early-leave grading and overtime.
   */
  method ApplyDeparture(totalMinutesOut: int, prior: Attendance) returns (a: Attendance)
    ensures a == ClassifyCheckOut(totalMinutesOut, prior)
  {
    a := prior;
    if totalMinutesOut < HalfDayThreshold {
      a := a.(status := HalfDay);
      a := a.(isHalfDay := true);
      a := a.(earlyLeaveMarks := Some(0));
    } else if totalMinutesOut < EarlyLeaveThreshold {
      if a.status != HalfDay && a.status != Absent {
        a := a.(earlyLeaveMarks := Some(1));
      }
    } else {
      a := a.(earlyLeaveMarks := Some(0));
    }
    if totalMinutesOut > OfficeEnd {
      a := a.(overtimeMinutes := Some(totalMinutesOut - OfficeEnd));
    } else {
      a := a.(overtimeMinutes := Some(0));
    }
  }

  class AttendanceBook {
    var records: map<DayKey, Attendance>

    ghost predicate Valid()
      reads this
    {
      WellKeyed(records)
    }

    constructor ()
      ensures Valid() && records == map[]
    {
      records := map[];
    }

    /**
     * Marks a check-in or check-out for `user` on the civil date `today` at
     * the wall-clock time `now`. On success the day's record is saved and
     * returned; on refusal nothing changes.
     */
    method MarkAttendance(user: UserId, today: string, action: string, now: Clock)
      returns (res: Result<Attendance, MarkError>)
      requires Valid() && ValidClock(now)
      modifies this
      ensures Valid()
      ensures res == Mark(Find(old(records), user, today), user, today, action, now)
      ensures res.Ok? ==> records == old(records)[(user, today) := res.value]
      ensures res.Err? ==> records == old(records)
    {
      var attendance := Find(records, user, today);
      var time := FormatTime(now);
      if action == "check-in" {
        if attendance.Some? && attendance.value.checkIn.Some? {
          return Err(AlreadyCheckedIn);
        }
        MinutesOfFormatTime(now);
        var totalMinutes := MinutesOf(time).value;
        var status, lateMarks, isHalfDay := ClassifyArrival(totalMinutes);
        var a: Attendance;
        if attendance.None? {
          a := NewAttendance(user, today).(checkIn := Some(time), status := status,
                                          isHalfDay := isHalfDay, lateMarks := Some(lateMarks));
        } else {
          a := attendance.value;
          a := a.(checkIn := Some(time));
          a := a.(status := status);
          a := a.(isHalfDay := isHalfDay);
          a := a.(lateMarks := Some(lateMarks));
        }
        records := records[(user, today) := a];
        res := Ok(a);
      } else if action == "check-out" {
        if attendance.None? || attendance.value.checkIn.None? {
          return Err(MustCheckInFirst);
        }
        if attendance.value.checkOut.Some? {
          return Err(AlreadyCheckedOut);
        }
        var a := attendance.value;
        a := a.(checkOut := Some(time));
        MinutesOfFormatTime(now);
        var totalMinutesOut := MinutesOf(time).value;
        a := ApplyDeparture(totalMinutesOut, a);
        assert a == ClassifyCheckOut(totalMinutesOut, attendance.value).(checkOut := Some(time));
        records := records[(user, today) := a];
        res := Ok(a);
      } else {
        res := Err(InvalidAction);
      }
    }
  }
}
