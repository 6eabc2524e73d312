/**
 * The attendance record of one user on one calendar day, with the schema's
 * status enumeration and defaults.
 */
module AttendanceSchema {
  import opened Wrappers
  import opened Directory

  /** The five statuses the schema admits; `HalfDay` is stored as "Half-Day". */
  datatype Status = Present | Absent | Late | Off | HalfDay

  /**
   * `checkIn`/`checkOut` are `HH:mm:ss` strings, absent until set. The three
   * counters are optional because records written before the schema had them
   * carry none; every reader treats a missing counter as 0.
   */
  datatype Attendance = Attendance(
    user: UserId,
    date: string,
    checkIn: Option<string>,
    checkOut: Option<string>,
    status: Status,
    isHalfDay: bool,
    lateMarks: Option<int>,
    earlyLeaveMarks: Option<int>,
    overtimeMinutes: Option<int>)

  /** `value || 0` on a numeric field. */
  function OrZero(value: Option<int>): int {
    value.GetOr(0)
  }

  /**
   * A well-kept record: the redundant `isHalfDay` flag agrees with the status,
   * and a check-out is only recorded after a check-in.
   */
  predicate Consistent(a: Attendance) {
    && a.isHalfDay == (a.status == HalfDay)
    && (a.checkOut.Some? ==> a.checkIn.Some?)
  }

  /** A record created with only its required fields: every other field takes its schema default. */
  function NewAttendance(user: UserId, date: string): (a: Attendance)
    ensures a.user == user && a.date == date
    ensures a.checkIn.None? && a.checkOut.None?
    ensures Consistent(a) && a.status == Present
    ensures OrZero(a.lateMarks) == OrZero(a.earlyLeaveMarks) == OrZero(a.overtimeMinutes) == 0
  {
    Attendance(user, date, None, None, Present, false, Some(0), Some(0), Some(0))
  }
}
