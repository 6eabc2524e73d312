/**
 * What the attendance reports compute from stored records: the absence
 * warnings over each active employee's newest records, the lifetime and
 * monthly tallies, and the month-name lookup of the monthly report.
 */
module AttendanceStats {
  import opened Wrappers
  import opened Directory
  import opened AttendanceSchema

  /** How many of an employee's newest records the absence check looks at. */
  const WarningWindow := 10

  // ---------------------------------------------------------------------
  // Consecutive absences

  /** Off days neither extend nor break a run of absences; every other non-Absent status ends it. */
  predicate ContinuesRun(s: Status) {
    s == Absent || s == Off
  }

  /** Number of records whose status is `st`. */
  function CountStatus(records: seq<Attendance>, st: Status): (n: nat)
    ensures n <= |records|
  {
    if records == [] then 0
    else (if records[0].status == st then 1 else 0) + CountStatus(records[1..], st)
  }

  /**
   * The absence streak of a newest-first sequence of records: the Absent
   * records before the first status that is neither Absent nor Off.
   */
  function Streak(records: seq<Attendance>): (n: nat)
    ensures n <= |records|
  {
    if records == [] then 0
    else if records[0].status == Absent then 1 + Streak(records[1..])
    else if records[0].status == Off then Streak(records[1..])
    else 0
  }

  /**
   * The streak counts exactly the Absent records of the leading run of
   * Absent/Off records, whichever record ends that run.
   */
  lemma {:induction false} StreakCountsLeadingAbsences(records: seq<Attendance>, k: nat)
    requires k <= |records|
    requires forall j :: 0 <= j < k ==> ContinuesRun(records[j].status)
    requires k == |records| || !ContinuesRun(records[k].status)
    ensures Streak(records) == CountStatus(records[..k], Absent)
  {
    if records == [] {
    } else if k == 0 {
      assert records[..0] == [];
    } else {
      StreakCountsLeadingAbsences(records[1..], k - 1);
      assert records[..k][1..] == records[1..][..k - 1];
    }
  }

  /**
   * The loop of the absence check over one employee's newest records
   * (newest first): counts Absent, skips Off, stops at anything else.
   */
  method ConsecutiveAbsents(lastAttendance: seq<Attendance>) returns (consecutiveAbsents: nat)
    ensures consecutiveAbsents == Streak(lastAttendance)
    ensures consecutiveAbsents <= CountStatus(lastAttendance, Absent)
  {
    consecutiveAbsents := 0;
    var i := 0;
    while i < |lastAttendance|
      invariant 0 <= i <= |lastAttendance|
      invariant consecutiveAbsents + Streak(lastAttendance[i..]) == Streak(lastAttendance)
      invariant consecutiveAbsents == CountStatus(lastAttendance[..i], Absent)
      invariant forall j :: 0 <= j < i ==> ContinuesRun(lastAttendance[j].status)
    {
      var record := lastAttendance[i];
      assert lastAttendance[i..][1..] == lastAttendance[i + 1..];
      CountStatusAppend(lastAttendance[..i], [record], Absent);
      assert lastAttendance[..i + 1] == lastAttendance[..i] + [record];
      if record.status == Absent {
        consecutiveAbsents := consecutiveAbsents + 1;
      } else if record.status == Off {
        i := i + 1;
        continue;
      } else {
        break;
      }
      i := i + 1;
    }
    CountStatusAppend(lastAttendance[..i], lastAttendance[i..], Absent);
    assert lastAttendance == lastAttendance[..i] + lastAttendance[i..];
  }

  datatype WarningKind = Warning | Disciplinary

  datatype AbsenceWarning = AbsenceWarning(employee: Employee, consecutiveAbsents: nat, kind: WarningKind)

  /** The `.limit(10)` of the newest-first history query. */
  function Newest(history: seq<Attendance>): (r: seq<Attendance>)
    ensures |r| == if |history| <= WarningWindow then |history| else WarningWindow
    ensures r <= history
  {
    if |history| <= WarningWindow then history else history[..WarningWindow]
  }

  /** An employee's records, newest first, as the store's sorted query returns them; none if absent. */
  function HistoryOf(histories: map<UserId, seq<Attendance>>, e: UserId): seq<Attendance> {
    if e in histories then histories[e] else []
  }

  /** The streak the absence check finds for employee `e`. */
  function StreakOf(histories: map<UserId, seq<Attendance>>, e: UserId): (n: nat)
    ensures n <= WarningWindow
  {
    Streak(Newest(HistoryOf(histories, e)))
  }

  /** `w` reports the streak the absence check finds for its employee, and is typed by it. */
  predicate Reports(w: AbsenceWarning, histories: map<UserId, seq<Attendance>>) {
    && w.consecutiveAbsents == StreakOf(histories, w.employee.id)
    && 2 <= w.consecutiveAbsents <= WarningWindow
    && (w.kind == Disciplinary <==> w.consecutiveAbsents >= 3)
  }

  /**
   * `warnings[k]` is about `employees[pos[k]]`, and the positions strictly
   * increase below `bound`: one warning per visited employee, in visiting order.
   */
  ghost predicate InVisitOrder(warnings: seq<AbsenceWarning>, employees: seq<Employee>, pos: seq<nat>, bound: nat) {
    && |pos| == |warnings|
    && (forall k :: 0 <= k < |pos| ==> pos[k] < bound && pos[k] < |employees| && warnings[k].employee == employees[pos[k]])
    && (forall k, l :: 0 <= k < l < |pos| ==> pos[k] < pos[l])
  }

  lemma InVisitOrderAppend(warnings: seq<AbsenceWarning>, employees: seq<Employee>, pos: seq<nat>, i: nat,
                           w: AbsenceWarning)
    requires InVisitOrder(warnings, employees, pos, i) && i < |employees| && w.employee == employees[i]
    ensures InVisitOrder(warnings + [w], employees, pos + [i], i + 1)
  {
  }

  lemma WarningsAboutVisited(warnings: seq<AbsenceWarning>, employees: seq<Employee>, pos: seq<nat>, bound: nat)
    requires InVisitOrder(warnings, employees, pos, bound)
    ensures forall w :: w in warnings ==> w.employee in employees
  {
    forall w | w in warnings
      ensures w.employee in employees
    {
      var k :| 0 <= k < |warnings| && warnings[k] == w;
      assert w.employee == employees[pos[k]];
    }
  }

  lemma InVisitOrderWiden(warnings: seq<AbsenceWarning>, employees: seq<Employee>, pos: seq<nat>, i: nat)
    requires InVisitOrder(warnings, employees, pos, i)
    ensures InVisitOrder(warnings, employees, pos, i + 1)
  {
  }

  lemma DistinctEmployeesDistinctWarnings(warnings: seq<AbsenceWarning>, employees: seq<Employee>, pos: seq<nat>, bound: nat)
    requires InVisitOrder(warnings, employees, pos, bound)
    requires forall i, j :: 0 <= i < j < |employees| ==> employees[i] != employees[j]
    ensures forall k, l :: 0 <= k < l < |warnings| ==> warnings[k].employee != warnings[l].employee
  {
    forall k, l | 0 <= k < l < |warnings|
      ensures warnings[k].employee != warnings[l].employee
    {
      assert pos[k] < pos[l];
    }
  }

  /** Some warning in `warnings` is about `e`. */
  ghost predicate Warned(warnings: seq<AbsenceWarning>, e: Employee) {
    exists w :: w in warnings && w.employee == e
  }

  /** Every visited employee is warned about exactly when their streak is at least 2. */
  ghost predicate Complete(warnings: seq<AbsenceWarning>, visited: seq<Employee>, histories: map<UserId, seq<Attendance>>) {
    forall e :: e in visited ==> (StreakOf(histories, e.id) >= 2 <==> Warned(warnings, e))
  }

  lemma CompleteAfterSkip(warnings: seq<AbsenceWarning>, employees: seq<Employee>, i: nat,
                          histories: map<UserId, seq<Attendance>>)
    requires i < |employees| && Complete(warnings, employees[..i], histories)
    requires StreakOf(histories, employees[i].id) < 2
    requires forall w :: w in warnings ==> Reports(w, histories)
    ensures Complete(warnings, employees[..i + 1], histories)
  {
    assert employees[..i + 1] == employees[..i] + [employees[i]];
    assert !Warned(warnings, employees[i]);
  }

  lemma CompleteAfterWarning(warnings: seq<AbsenceWarning>, employees: seq<Employee>, i: nat, w: AbsenceWarning,
                             histories: map<UserId, seq<Attendance>>)
    requires i < |employees| && Complete(warnings, employees[..i], histories)
    requires w.employee == employees[i] && StreakOf(histories, w.employee.id) >= 2
    ensures Complete(warnings + [w], employees[..i + 1], histories)
  {
    assert employees[..i + 1] == employees[..i] + [employees[i]];
    forall e | e in employees[..i + 1]
      ensures StreakOf(histories, e.id) >= 2 <==> Warned(warnings + [w], e)
    {
      if e == w.employee {
        assert w in warnings + [w];
      } else if Warned(warnings + [w], e) {
        var v :| v in warnings + [w] && v.employee == e;
        assert v in warnings;
      }
    }
  }

  /**
   * The loop state of the absence check after visiting `employees[..i]`:
   * warnings in visiting order, each reporting its employee's streak, and
   * exactly the visited employees with a streak of at least 2 warned about.
   */
  ghost predicate Scanned(warnings: seq<AbsenceWarning>, employees: seq<Employee>, pos: seq<nat>, i: nat,
                          histories: map<UserId, seq<Attendance>>) {
    && i <= |employees|
    && |warnings| <= i
    && InVisitOrder(warnings, employees, pos, i)
    && (forall w :: w in warnings ==> Reports(w, histories))
    && Complete(warnings, employees[..i], histories)
  }

  lemma ScanWarn(warnings: seq<AbsenceWarning>, employees: seq<Employee>, pos: seq<nat>, i: nat, w: AbsenceWarning,
                 histories: map<UserId, seq<Attendance>>)
    requires Scanned(warnings, employees, pos, i, histories) && i < |employees|
    requires w.employee == employees[i] && Reports(w, histories)
    ensures Scanned(warnings + [w], employees, pos + [i], i + 1, histories)
  {
    CompleteAfterWarning(warnings, employees, i, w, histories);
    InVisitOrderAppend(warnings, employees, pos, i, w);
  }

  lemma ScanSkip(warnings: seq<AbsenceWarning>, employees: seq<Employee>, pos: seq<nat>, i: nat,
                 histories: map<UserId, seq<Attendance>>)
    requires Scanned(warnings, employees, pos, i, histories) && i < |employees|
    requires StreakOf(histories, employees[i].id) < 2
    ensures Scanned(warnings, employees, pos, i + 1, histories)
  {
    CompleteAfterSkip(warnings, employees, i, histories);
    InVisitOrderWiden(warnings, employees, pos, i);
  }

  lemma ScanDone(warnings: seq<AbsenceWarning>, employees: seq<Employee>, pos: seq<nat>,
                 histories: map<UserId, seq<Attendance>>)
    requires Scanned(warnings, employees, pos, |employees|, histories)
    ensures |warnings| <= |employees|
    ensures forall w :: w in warnings ==> w.employee in employees && Reports(w, histories)
    ensures forall e :: e in employees ==> (StreakOf(histories, e.id) >= 2 <==> Warned(warnings, e))
    ensures (forall i, j :: 0 <= i < j < |employees| ==> employees[i] != employees[j]) ==>
      forall k, l :: 0 <= k < l < |warnings| ==> warnings[k].employee != warnings[l].employee
  {
    assert employees[..|employees|] == employees;
    WarningsAboutVisited(warnings, employees, pos, |employees|);
    if forall i, j :: 0 <= i < j < |employees| ==> employees[i] != employees[j] {
      DistinctEmployeesDistinctWarnings(warnings, employees, pos, |employees|);
    }
  }

  /**
   * The absence-warnings report over the active employees among `users`:
   * one warning per employee whose streak is at least 2, typed Disciplinary
   * from 3 on, in the order the employees are visited. `histories` answers
   * each employee's newest-first history query.
   */
  method AbsenceWarnings(users: seq<Employee>, histories: map<UserId, seq<Attendance>>)
    returns (warnings: seq<AbsenceWarning>)
    ensures |warnings| <= |ActiveEmployees(users)|
    ensures forall w :: w in warnings ==> w.employee in ActiveEmployees(users) && Reports(w, histories)
    ensures forall e :: e in ActiveEmployees(users) ==>
      (StreakOf(histories, e.id) >= 2 <==> exists w :: w in warnings && w.employee == e)
    ensures var active := ActiveEmployees(users);
      (forall i, j :: 0 <= i < j < |active| ==> active[i] != active[j]) ==>
      forall i, j :: 0 <= i < j < |warnings| ==> warnings[i].employee != warnings[j].employee
  {
    var employees := ActiveEmployees(users);
    warnings := [];
    ghost var pos: seq<nat> := [];
    var i := 0;
    while i < |employees|
      invariant Scanned(warnings, employees, pos, i, histories)
    {
      var emp := employees[i];
      var lastAttendance := Newest(HistoryOf(histories, emp.id));
      var consecutiveAbsents := ConsecutiveAbsents(lastAttendance);
      if consecutiveAbsents >= 2 {
        var w := AbsenceWarning(emp, consecutiveAbsents,
                                if consecutiveAbsents >= 3 then Disciplinary else Warning);
        ScanWarn(warnings, employees, pos, i, w, histories);
        warnings := warnings + [w];
        pos := pos + [i];
      } else {
        ScanSkip(warnings, employees, pos, i, histories);
      }
      i := i + 1;
    }
    ScanDone(warnings, employees, pos, histories);
  }

  // ---------------------------------------------------------------------
  // Tallies

  /** Records counted as half days: status Half-Day or the isHalfDay flag, so older records are not missed. */
  function CountHalfDay(records: seq<Attendance>): (n: nat)
    ensures n <= |records|
  {
    if records == [] then 0
    else (if records[0].status == HalfDay || records[0].isHalfDay then 1 else 0) + CountHalfDay(records[1..])
  }

  /** Records with at least one early-leave mark; a missing counter is not greater than 0. */
  function CountEarlyLeave(records: seq<Attendance>): (n: nat)
    ensures n <= |records|
  {
    if records == [] then 0
    else (if OrZero(records[0].earlyLeaveMarks) > 0 then 1 else 0) + CountEarlyLeave(records[1..])
  }

  datatype Counter = LateMarks | EarlyLeaveMarks | OvertimeMinutes

  function CounterOf(a: Attendance, c: Counter): int {
    match c
    case LateMarks => OrZero(a.lateMarks)
    case EarlyLeaveMarks => OrZero(a.earlyLeaveMarks)
    case OvertimeMinutes => OrZero(a.overtimeMinutes)
  }

  /** The total of counter `c` over the records, a missing value counting as zero. */
  function Sum(records: seq<Attendance>, c: Counter): (r: int)
    ensures (forall a :: a in records ==> CounterOf(a, c) >= 0) ==> r >= 0
    ensures (forall a :: a in records ==> 0 <= CounterOf(a, c) <= 1) ==> 0 <= r <= |records|
  {
    if records == [] then 0
    else
      assert forall a :: a in records[1..] ==> a in records;
      CounterOf(records[0], c) + Sum(records[1..], c)
  }

  /** The records of one user: a `$group` on `user` folds over exactly these. */
  function OfUser(records: seq<Attendance>, user: UserId): (r: seq<Attendance>)
    ensures |r| <= |records|
    ensures forall a :: a in r <==> a in records && a.user == user
  {
    if records == [] then []
    else
      assert records == [records[0]] + records[1..];
      (if records[0].user == user then [records[0]] else []) + OfUser(records[1..], user)
  }

  datatype LifetimeStats = LifetimeStats(
    totalPresent: nat, totalLate: nat, totalHalfDay: nat, totalAbsent: nat,
    totalEarlyLeave: nat, totalOvertimeMinutes: int)

  /** The lifetime statistics of one user, as the per-user `$group` computes them. */
  function LifetimeStatsOf(records: seq<Attendance>, user: UserId): (s: LifetimeStats)
    ensures var n := |OfUser(records, user)|;
      && s.totalPresent + s.totalLate + s.totalAbsent <= n
      && s.totalHalfDay <= n && s.totalEarlyLeave <= n
    ensures (forall a :: a in records ==> OrZero(a.overtimeMinutes) >= 0) ==> s.totalOvertimeMinutes >= 0
  {
    var mine := OfUser(records, user);
    StatusCountsPartition(mine);
    LifetimeStats(CountStatus(mine, Present), CountStatus(mine, Late), CountHalfDay(mine),
                  CountStatus(mine, Absent), CountEarlyLeave(mine), Sum(mine, OvertimeMinutes))
  }

  /**
   * On consistent records each of a user's records is counted by exactly one
   * of the lifetime tallies Present, Late, Half-Day and Absent, or is an Off day.
   */
  lemma LifetimeTalliesPartitionUserRecords(records: seq<Attendance>, user: UserId)
    requires forall a :: a in records ==> Consistent(a)
    ensures var s, mine := LifetimeStatsOf(records, user), OfUser(records, user);
      s.totalPresent + s.totalLate + s.totalHalfDay + s.totalAbsent + CountStatus(mine, Off) == |mine|
  {
    var mine := OfUser(records, user);
    StatusCountsPartition(mine);
    HalfDayCountOnConsistentRecords(mine);
  }

  /** The count query `{ user, status }`: records of `user` with status `st`, over the whole collection. */
  function CountOfUserWithStatus(records: seq<Attendance>, user: UserId, st: Status): (n: nat)
    ensures n <= |records|
  {
    if records == [] then 0
    else (if records[0].user == user && records[0].status == st then 1 else 0)
         + CountOfUserWithStatus(records[1..], user, st)
  }

  /** The count query `{ user, earlyLeaveMarks: { $gt: 0 } }` over the whole collection. */
  function CountOfUserWithEarlyLeave(records: seq<Attendance>, user: UserId): (n: nat)
    ensures n <= |records|
  {
    if records == [] then 0
    else (if records[0].user == user && OrZero(records[0].earlyLeaveMarks) > 0 then 1 else 0)
         + CountOfUserWithEarlyLeave(records[1..], user)
  }

  /** Counting a user's records with a status equals counting that status within the user's group. */
  lemma {:induction false} CountOfUserWithStatusIsGroupCount(records: seq<Attendance>, user: UserId, st: Status)
    ensures CountOfUserWithStatus(records, user, st) == CountStatus(OfUser(records, user), st)
  {
    if records != [] {
      CountOfUserWithStatusIsGroupCount(records[1..], user, st);
      var head: seq<Attendance> := if records[0].user == user then [records[0]] else [];
      CountStatusAppend(head, OfUser(records[1..], user), st);
    }
  }

  /** Counting a user's early leaves equals counting early leaves within the user's group. */
  lemma {:induction false} CountOfUserWithEarlyLeaveIsGroupCount(records: seq<Attendance>, user: UserId)
    ensures CountOfUserWithEarlyLeave(records, user) == CountEarlyLeave(OfUser(records, user))
  {
    if records != [] {
      CountOfUserWithEarlyLeaveIsGroupCount(records[1..], user);
      var head: seq<Attendance> := if records[0].user == user then [records[0]] else [];
      CountEarlyLeaveAppend(head, OfUser(records[1..], user));
    }
  }

  datatype HistoryStats = HistoryStats(present: nat, late: nat, absent: nat, earlyLeave: nat)

  /** The four count queries of the per-employee history view, each over the whole collection. */
  function HistoryStatsOf(records: seq<Attendance>, user: UserId): (h: HistoryStats)
    ensures h.present + h.late + h.absent <= |OfUser(records, user)|
    ensures h.earlyLeave <= |OfUser(records, user)|
  {
    CountOfUserWithStatusIsGroupCount(records, user, Present);
    CountOfUserWithStatusIsGroupCount(records, user, Late);
    CountOfUserWithStatusIsGroupCount(records, user, Absent);
    CountOfUserWithEarlyLeaveIsGroupCount(records, user);
    StatusCountsPartition(OfUser(records, user));
    HistoryStats(CountOfUserWithStatus(records, user, Present), CountOfUserWithStatus(records, user, Late),
                 CountOfUserWithStatus(records, user, Absent), CountOfUserWithEarlyLeave(records, user))
  }

  /** The history view's count queries and the lifetime report's per-user group agree on every shared figure. */
  lemma HistoryStatsAgreeWithLifetime(records: seq<Attendance>, user: UserId)
    ensures var h, l := HistoryStatsOf(records, user), LifetimeStatsOf(records, user);
      h.present == l.totalPresent && h.late == l.totalLate && h.absent == l.totalAbsent
      && h.earlyLeave == l.totalEarlyLeave
  {
    CountOfUserWithStatusIsGroupCount(records, user, Present);
    CountOfUserWithStatusIsGroupCount(records, user, Late);
    CountOfUserWithStatusIsGroupCount(records, user, Absent);
    CountOfUserWithEarlyLeaveIsGroupCount(records, user);
  }

  datatype MonthlyStats = MonthlyStats(
    present: nat, late: int, earlyLeave: int, absent: nat, halfDay: nat, overtimeMinutes: int)

  /** The statistics block of the monthly report over that month's records of one user. */
  function MonthlyStatsOf(records: seq<Attendance>): (m: MonthlyStats)
    ensures m.present + m.absent <= |records| && m.halfDay <= |records|
    ensures (forall a :: a in records ==> 0 <= OrZero(a.lateMarks) <= 1) ==> 0 <= m.late <= |records|
    ensures (forall a :: a in records ==> 0 <= OrZero(a.earlyLeaveMarks) <= 1) ==> 0 <= m.earlyLeave <= |records|
    ensures (forall a :: a in records ==> OrZero(a.overtimeMinutes) >= 0) ==> m.overtimeMinutes >= 0
  {
    StatusCountsPartition(records);
    MonthlyStats(CountStatus(records, Present), Sum(records, LateMarks), Sum(records, EarlyLeaveMarks),
                 CountStatus(records, Absent), CountHalfDay(records), Sum(records, OvertimeMinutes))
  }

  /**
   * Where every Late day carries its late mark and no mark is negative, the
   * monthly report's late-mark sum is at least the number of Late days the
   * salary calculation counts; it can be larger, since a mark outlives its status.
   */
  lemma {:induction false} LateMarksCoverLateDays(records: seq<Attendance>)
    requires forall a :: a in records ==> OrZero(a.lateMarks) >= 0 && (a.status == Late ==> OrZero(a.lateMarks) == 1)
    ensures Sum(records, LateMarks) >= CountStatus(records, Late)
  {
    if records != [] {
      assert forall a :: a in records[1..] ==> a in records;
      LateMarksCoverLateDays(records[1..]);
    }
  }

  lemma {:induction false} CountStatusAppend(a: seq<Attendance>, b: seq<Attendance>, st: Status)
    ensures CountStatus(a + b, st) == CountStatus(a, st) + CountStatus(b, st)
  {
    if a == [] {
      assert a + b == b;
    } else {
      CountStatusAppend(a[1..], b, st);
      assert (a + b)[1..] == a[1..] + b;
    }
  }

  lemma {:induction false} CountHalfDayAppend(a: seq<Attendance>, b: seq<Attendance>)
    ensures CountHalfDay(a + b) == CountHalfDay(a) + CountHalfDay(b)
  {
    if a == [] {
      assert a + b == b;
    } else {
      CountHalfDayAppend(a[1..], b);
      assert (a + b)[1..] == a[1..] + b;
    }
  }

  lemma {:induction false} CountEarlyLeaveAppend(a: seq<Attendance>, b: seq<Attendance>)
    ensures CountEarlyLeave(a + b) == CountEarlyLeave(a) + CountEarlyLeave(b)
  {
    if a == [] {
      assert a + b == b;
    } else {
      CountEarlyLeaveAppend(a[1..], b);
      assert (a + b)[1..] == a[1..] + b;
    }
  }

  lemma {:induction false} SumAppend(a: seq<Attendance>, b: seq<Attendance>, c: Counter)
    ensures Sum(a + b, c) == Sum(a, c) + Sum(b, c)
  {
    if a == [] {
      assert a + b == b;
    } else {
      var ab := a + b;
      assert ab[0] == a[0] && ab[1..] == a[1..] + b;
      SumAppend(a[1..], b, c);
    }
  }

  /**
   * The monthly statistics are a fold that splits over any division of the
   * records: the report of a month equals the sum of the reports of its parts.
   */
  lemma MonthlyStatsSplit(a: seq<Attendance>, b: seq<Attendance>)
    ensures var s, sa, sb := MonthlyStatsOf(a + b), MonthlyStatsOf(a), MonthlyStatsOf(b);
      && s.present == sa.present + sb.present && s.late == sa.late + sb.late
      && s.earlyLeave == sa.earlyLeave + sb.earlyLeave && s.absent == sa.absent + sb.absent
      && s.halfDay == sa.halfDay + sb.halfDay && s.overtimeMinutes == sa.overtimeMinutes + sb.overtimeMinutes
  {
    CountStatusAppend(a, b, Present);
    CountStatusAppend(a, b, Absent);
    CountHalfDayAppend(a, b);
    SumAppend(a, b, LateMarks);
    SumAppend(a, b, EarlyLeaveMarks);
    SumAppend(a, b, OvertimeMinutes);
  }

  /**
   * One record's part in the monthly report: Present and Absent each counted
   * by their own figure, a half day by its status or its flag, and each
   * counter summed as stored, a missing one as 0. With `MonthlyStatsSplit`
   * this fixes the report on any records.
   */
  lemma MonthlyStatsOfOne(a: Attendance)
    ensures MonthlyStatsOf([a]) == MonthlyStats(
      if a.status == Present then 1 else 0,
      OrZero(a.lateMarks),
      OrZero(a.earlyLeaveMarks),
      if a.status == Absent then 1 else 0,
      if a.status == HalfDay || a.isHalfDay then 1 else 0,
      OrZero(a.overtimeMinutes))
  {
    assert [a][1..] == [];
  }

  /** A user's group of a concatenation is the concatenation of the groups. */
  lemma {:induction false} OfUserAppend(a: seq<Attendance>, b: seq<Attendance>, user: UserId)
    ensures OfUser(a + b, user) == OfUser(a, user) + OfUser(b, user)
  {
    if a == [] {
      assert a + b == b;
    } else {
      var ab := a + b;
      assert ab[0] == a[0] && ab[1..] == a[1..] + b;
      OfUserAppend(a[1..], b, user);
    }
  }

  /**
   * One record's part in the lifetime report of `user`: nothing when it is
   * another user's; otherwise one in the tally of its status, a half day by
   * status or flag, an early leave when its mark is above 0, and its overtime
   * with a missing value as 0.
   */
  lemma LifetimeStatsOfOne(a: Attendance, user: UserId)
    ensures LifetimeStatsOf([a], user) ==
      if a.user != user then LifetimeStats(0, 0, 0, 0, 0, 0)
      else LifetimeStats(
        if a.status == Present then 1 else 0,
        if a.status == Late then 1 else 0,
        if a.status == HalfDay || a.isHalfDay then 1 else 0,
        if a.status == Absent then 1 else 0,
        if OrZero(a.earlyLeaveMarks) > 0 then 1 else 0,
        OrZero(a.overtimeMinutes))
  {
    assert [a][1..] == [];
    assert OfUser([a], user) == if a.user == user then [a] else [];
  }

  /** Every lifetime total splits over any division of the collection. */
  lemma LifetimeStatsSplit(a: seq<Attendance>, b: seq<Attendance>, user: UserId)
    ensures var s, sa, sb := LifetimeStatsOf(a + b, user), LifetimeStatsOf(a, user), LifetimeStatsOf(b, user);
      && s.totalPresent == sa.totalPresent + sb.totalPresent && s.totalLate == sa.totalLate + sb.totalLate
      && s.totalHalfDay == sa.totalHalfDay + sb.totalHalfDay && s.totalAbsent == sa.totalAbsent + sb.totalAbsent
      && s.totalEarlyLeave == sa.totalEarlyLeave + sb.totalEarlyLeave
      && s.totalOvertimeMinutes == sa.totalOvertimeMinutes + sb.totalOvertimeMinutes
  {
    var ma, mb := OfUser(a, user), OfUser(b, user);
    OfUserAppend(a, b, user);
    CountStatusAppend(ma, mb, Present);
    CountStatusAppend(ma, mb, Late);
    CountStatusAppend(ma, mb, Absent);
    CountHalfDayAppend(ma, mb);
    CountEarlyLeaveAppend(ma, mb);
    SumAppend(ma, mb, OvertimeMinutes);
  }

  /** One record's part in the history view's four count queries. */
  lemma HistoryStatsOfOne(a: Attendance, user: UserId)
    ensures HistoryStatsOf([a], user) ==
      if a.user != user then HistoryStats(0, 0, 0, 0)
      else HistoryStats(
        if a.status == Present then 1 else 0,
        if a.status == Late then 1 else 0,
        if a.status == Absent then 1 else 0,
        if OrZero(a.earlyLeaveMarks) > 0 then 1 else 0)
  {
    assert [a][1..] == [];
  }

  /** Every record has exactly one of the five statuses, so the per-status counts partition the records. */
  lemma {:induction false} StatusCountsPartition(records: seq<Attendance>)
    ensures CountStatus(records, Present) + CountStatus(records, Late) + CountStatus(records, HalfDay)
          + CountStatus(records, Absent) + CountStatus(records, Off) == |records|
  {
    if records != [] {
      StatusCountsPartition(records[1..]);
    }
  }

  /** On consistent records the half-day count is simply the number of Half-Day statuses. */
  lemma {:induction false} HalfDayCountOnConsistentRecords(records: seq<Attendance>)
    requires forall a :: a in records ==> Consistent(a)
    ensures CountHalfDay(records) == CountStatus(records, HalfDay)
  {
    if records != [] {
      assert records[0] in records;
      assert forall a :: a in records[1..] ==> a in records;
      HalfDayCountOnConsistentRecords(records[1..]);
    }
  }

  // ---------------------------------------------------------------------
  // Month names

  const MonthNames: seq<string> := ["January", "February", "March", "April", "May", "June",
    "July", "August", "September", "October", "November", "December"]

  function IndexFrom(names: seq<string>, name: string, from: nat): (r: Option<nat>)
    requires from <= |names|
    ensures r.Some? ==> from <= r.value < |names| && names[r.value] == name
    ensures r.Some? ==> forall j :: from <= j < r.value ==> names[j] != name
    ensures r.None? ==> forall j :: from <= j < |names| ==> names[j] != name
    decreases |names| - from
  {
    if from == |names| then None
    else if names[from] == name then Some(from)
    else IndexFrom(names, name, from + 1)
  }

  /** `indexOf` on the month-name table: the 0-based month of a full English month name, or nothing. */
  function MonthIndex(name: string): (r: Option<nat>)
    ensures r.Some? ==> r.value < 12 && MonthNames[r.value] == name
    ensures r.None? <==> name !in MonthNames
  {
    IndexFrom(MonthNames, name, 0)
  }

  /** Looking up the name of month `i` gives back `i`. */
  lemma MonthIndexOfName(i: nat)
    requires i < 12
    ensures MonthIndex(MonthNames[i]) == Some(i)
  {
    var r := MonthIndex(MonthNames[i]);
    assert r.Some?;
  }
}
