# Attendance and payroll rules of the HR back office

This project models the attendance-and-payroll core of an HR back office in Dafny. Employees check in and check out once a day. Those marks are graded against fixed office-hour thresholds, and the graded records feed several reports:
- absence warnings;
- lifetime and monthly statistics;
- a salary calculation that deducts one day of pay for every three late arrivals.

Salary records are created, updated, paid and deleted by an administrator. A monthly batch job is meant to seed an Unpaid record for each active employee; as written, its records fail the schema's status validation (see Findings). Once a record is Paid it can no longer be changed.

The clock, the database and the employee directory become inputs:
- The wall-clock time of a request is a `Clock` value already in the organisation's civil time zone. The current date is a `YYYY-MM-DD` string.
- The attendance collection is a map keyed by (user, date). That key makes the one-record-per-day rule, which the code keeps only by looking a record up before writing it, an invariant of the store.
- The salary collection is a map from record id to record. Its invariant includes the schema's unique (employee, month, year) index.

## Layout

| file | module | contents |
|---|---|---|
| `wrappers.dfy` | `Wrappers` | `Option` and `Result` |
| `wall_clock.dfy` | `WallClock` | `HH:mm:ss` and `YYYY-MM-DD` renderings; the parse of a time string to minutes |
| `directory.dfy` | `Directory` | employees, roles, employment status, the active-employee query |
| `attendance_schema.dfy` | `AttendanceSchema` | the attendance record, its statuses and defaults |
| `attendance_policy.dfy` | `AttendancePolicy` | check-in and check-out classification and the whole `markAttendance` decision, as functions |
| `attendance_store.dfy` | `AttendanceStore` | the `AttendanceBook` class whose `MarkAttendance` updates the stored record field by field |
| `attendance_stats.dfy` | `AttendanceStats` | the absence-warnings loop, the lifetime, history and monthly tallies, the month-name table |
| `salary_schema.dfy` | `SalarySchema` | the salary record, its statuses and its unique key |
| `salary_calculation.dfy` | `SalaryCalculation` | late count, deductible days and the deduction amount in exact integers |
| `salary_lifecycle.dfy` | `SalaryLifecycle` | the `SalaryBook` class (create, update, pay, delete) and the salary totals |
| `payroll_job.dfy` | `PayrollJob` | the monthly seeding loop |

## Where the model departs from a first reading

- **Check-out can improve a day.** A check-out before 16:00 sets the day to Half-Day whatever it was before. An Absent day (a check-in after 13:00) is therefore lifted to Half-Day. One might expect check-out only ever to confirm or worsen a day. The model follows the code: `CheckOutLiftsAbsent` shows the lift, and `CheckOutNeverImproves` holds only for days that are not Absent.
- **Late marks outlive the Late status.** Nothing in check-out resets `lateMarks`. A 09:20 check-in followed by a 15:00 check-out leaves a Half-Day that still carries one late mark (`LateMarkOutlivesLateStatus`). The two reports count lateness differently:
  - the monthly report sums `lateMarks`, so it counts that day as late;
  - the salary calculation counts `Late` statuses, so it does not.

  `LateMarksCoverLateDays` shows that, when every Late day carries its mark and no mark is negative, the late-mark sum is never below the Late count.
- **Three salary statuses.** The schema admits only `Pending` and `Paid` (Models/Salary.js:45). The payroll job writes `Unpaid` (utils/payrollJob.js:36). The salary listing totals `Pending` records, while the two per-employee overviews total `Unpaid` records. `SalaryStatus` therefore has all three values:
  - `SchemaStatus` says which of them the schema accepts;
  - `Seed` states that the job's record is outside the schema's enumeration;
  - `SalaryBook.Insert` applies no status enumeration, which amounts to the schema's enumeration extended with `Unpaid`;
  - `SalaryBook.CreateChecked` applies the enumeration as written.
- **`paidBy` reaches only the audit log.** Neither the salary schema nor the transaction schema (Models/Transaction.js:3-48) has a `paidBy` field. The payer's name that the pay request assigns to both is therefore dropped from each. It survives only in the payment's activity-log entry, as the performer and in the entry's new values. `PaySalary` returns the ledger entry and the log entry separately, and only the log entry carries the payer.

## Model

| member | source | states |
|---|---|---|
| WallClock.TwoDigits | Controllers/salaryController.js:42 | two decimal digits whose value is `n`: the zero padding of the month number |
| WallClock.FormatTime | Controllers/attendance.js:15 | the 24-hour rendering is eight characters with colons at positions 2 and 5 |
| WallClock.FormatDate | Controllers/attendance.js:14 | the date rendering is ten characters with dashes at positions 4 and 7 |
| WallClock.MinutesOf | Controllers/attendance.js:26-27 | a time string yields a minute count exactly when it has the `HH:mm:ss` shape |
| WallClock.MinutesOfFormatTime | Controllers/attendance.js:26-27 | parsing a rendered time gives hours × 60 + minutes |
| WallClock.SecondsIgnored | Controllers/attendance.js:93-94 | two times that differ only in their seconds parse to the same minute |
| Directory.ActiveEmployees | utils/payrollJob.js:16 | a user is selected iff its role is employee and its status is Active; never more users than given |
| AttendanceSchema.NewAttendance | Models/attendance.js:4-39 | a new record has its user and date, no check-in or check-out, status Present, isHalfDay false and all three counters 0 |
| AttendancePolicy.ClassifyCheckIn | Controllers/attendance.js:40-53 | Present iff minutes ≤ 550, Late iff 551–570, Half-Day iff 571–780, Absent iff > 780; lateMarks is 1 iff Late; isHalfDay iff Half-Day |
| AttendancePolicy.CheckInMonotone | Controllers/attendance.js:40-53 | a later check-in never gets a less severe status |
| AttendancePolicy.ClassifyCheckOut | Controllers/attendance.js:100-120 | before 960: Half-Day, isHalfDay, no early mark; 960–1064: early mark 1 unless already Half-Day or Absent; from 1065: no early mark; overtime is minutes − 1080 if positive, else 0; user, date, check-in and lateMarks untouched |
| AttendancePolicy.OvertimeIgnoresClassification | Controllers/attendance.js:116-120 | overtime depends only on the check-out time, not on the record |
| AttendancePolicy.CheckOutNeverImproves | Controllers/attendance.js:100-113 | for a day that is not Absent, check-out never lowers the severity of its status |
| AttendancePolicy.CheckOutLiftsAbsent | Controllers/attendance.js:100-104 | an Absent day checked out before 16:00 becomes less severe |
| AttendancePolicy.Mark | Controllers/attendance.js:18-132 | refusals: check-in when already checked in; check-out without a check-in; a second check-out; any other action. A check-in succeeds iff the day has no check-in yet; a check-out succeeds iff the day has a check-in and no check-out. A check-in creates or overwrites only checkIn/status/isHalfDay/lateMarks with the classification of the current minute. A check-out sets checkOut and applies `ClassifyCheckOut`. Consistency of the record is preserved |
| AttendancePolicy.LateMarkOutlivesLateStatus | Controllers/attendance.js:100-104 | a 09:20 check-in (Late, one mark) then a 15:00 check-out gives Half-Day still carrying one late mark |
| AttendancePolicy.SecondCheckInRefused | Controllers/attendance.js:21-23 | after a successful check-in, any second check-in that day is refused |
| AttendanceStore.Find | Controllers/attendance.js:18 | finds a record iff the (user, date) key is stored, and returns that record |
| AttendanceStore.ClassifyArrival | Controllers/attendance.js:29-53 | the imperative if-chain computes exactly `ClassifyCheckIn` |
| AttendanceStore.ApplyDeparture | Controllers/attendance.js:100-120 | the field-by-field check-out update computes exactly `ClassifyCheckOut` |
| AttendanceStore.AttendanceBook.MarkAttendance | Controllers/attendance.js:9-137 | returns the decision of `Mark` on the day's stored record; on success stores the result under (user, date) and nothing else; on refusal changes nothing; keeps every record under its own key and consistent |
| AttendanceStats.CountStatus | Controllers/attendance.js:312 | a count of records with a given status never exceeds the number of records |
| AttendanceStats.Streak | Controllers/attendance.js:247-258 | the streak never exceeds the number of records |
| AttendanceStats.StreakCountsLeadingAbsences | Controllers/attendance.js:247-258 | the streak is the number of Absent records in the leading run of Absent/Off records |
| AttendanceStats.ConsecutiveAbsents | Controllers/attendance.js:247-258 | the loop with `continue`/`break` computes the streak, which is at most the number of Absent records |
| AttendanceStats.Newest | Controllers/attendance.js:243-245 | the first min(10, n) records of the newest-first history |
| AttendanceStats.StreakOf | Controllers/attendance.js:243-258 | an employee's streak is at most the ten-record window |
| AttendanceStats.AbsenceWarnings | Controllers/attendance.js:238-266 | over the active employees: a warning exists for an employee iff their streak is ≥ 2; each warning names an active employee, carries their streak (between 2 and 10) and is Disciplinary iff the streak is ≥ 3; distinct employees get at most one warning each |
| AttendanceStats.DistinctEmployeesDistinctWarnings | Controllers/attendance.js:241-266 | warnings pushed in visiting order, one per visited position, name distinct employees when the employees are distinct |
| AttendanceStats.CountHalfDay | Controllers/attendance.js:316 | the half-day count never exceeds the number of records; MonthlyStatsOfOne states which records it counts |
| AttendanceStats.CountEarlyLeave | Controllers/attendance.js:217 | the early-leave count, where a missing counter is 0, never exceeds the number of records |
| AttendanceStats.OfUser | Controllers/attendance.js:203 | the group of a user holds exactly that user's records |
| AttendanceStats.CountStatusAppend | Controllers/attendance.js:204-215 | a status count over concatenated records is the sum of the counts |
| AttendanceStats.CountHalfDayAppend | Controllers/attendance.js:210-212 | the half-day count over concatenated records is the sum of the counts |
| AttendanceStats.CountEarlyLeaveAppend | Controllers/attendance.js:216-218 | the early-leave count over concatenated records is the sum of the counts |
| AttendanceStats.Sum | Controllers/attendance.js:313-317 | the sum of a counter is non-negative when every counter is, and at most the number of records when every counter is 0 or 1; MonthlyStatsOfOne states what one record adds |
| AttendanceStats.SumAppend | Controllers/attendance.js:313-317 | a counter sum over concatenated records is the sum of the sums |
| AttendanceStats.MonthlyStatsOfOne | Controllers/attendance.js:311-318 | one record adds 1 to Present or Absent by its status, 1 to the half days when its status is Half-Day or its flag is set, and its late marks, early-leave marks and overtime as stored, a missing counter as 0 |
| AttendanceStats.MonthlyStatsSplit | Controllers/attendance.js:311-318 | each figure of the monthly statistics over two parts is the sum of that figure over each part |
| AttendanceStats.StatusCountsPartition | Controllers/attendance.js:204-215 | the counts of the five statuses add up to the number of records |
| AttendanceStats.HalfDayCountOnConsistentRecords | Controllers/attendance.js:210-212 | on consistent records the half-day count equals the number of Half-Day statuses |
| AttendanceStats.LifetimeStatsOf | Controllers/attendance.js:200-222 | per user: Present + Late + Absent totals at most the user's record count, half-day and early-leave totals each at most that count, overtime non-negative when every record's is |
| AttendanceStats.MonthlyStatsOf | Controllers/attendance.js:311-318 | Present + Absent and the half-day count at most the number of records; late and early-leave sums between 0 and the number of records when every mark is 0 or 1; overtime non-negative when every record's is |
| AttendanceStats.LateMarksCoverLateDays | Controllers/attendance.js:313 | when every Late day carries its mark and no mark is negative, the late-mark sum is at least the number of Late days |
| AttendanceStats.OfUserAppend | Controllers/attendance.js:200-204 | a user's group of two concatenated collections is the concatenation of the two groups |
| AttendanceStats.LifetimeStatsOfOne | Controllers/attendance.js:200-222 | another user's record adds nothing; the user's own record adds 1 to the tally of its status, 1 to the half days by status or flag, 1 to early leaves when its mark is above 0, and its overtime, a missing value as 0 |
| AttendanceStats.LifetimeStatsSplit | Controllers/attendance.js:200-222 | every lifetime total over two parts of the collection is the sum of the totals over each part |
| AttendanceStats.LifetimeTalliesPartitionUserRecords | Controllers/attendance.js:200-222 | on consistent records a user's Present, Late, Half-Day and Absent totals plus their Off days equal their number of records |
| AttendanceStats.CountOfUserWithStatus | Controllers/attendance.js:176-178 | the count query on (user, status) counts at most every record |
| AttendanceStats.CountOfUserWithEarlyLeave | Controllers/attendance.js:179 | the count query on (user, early marks > 0) counts at most every record |
| AttendanceStats.CountOfUserWithStatusIsGroupCount | Controllers/attendance.js:176-178 | counting a user's records with a status over the whole collection equals counting that status in the user's group |
| AttendanceStats.CountOfUserWithEarlyLeaveIsGroupCount | Controllers/attendance.js:179 | counting a user's early leaves over the whole collection equals counting them in the user's group |
| AttendanceStats.HistoryStatsOf | Controllers/attendance.js:175-180 | the present, late and absent counts together, and the early-leave count, are each at most the user's record count |
| AttendanceStats.HistoryStatsOfOne | Controllers/attendance.js:175-180 | another user's record adds nothing to the four counts; the user's own record adds 1 to the count of its status and 1 to early leaves when its mark is above 0 |
| AttendanceStats.HistoryStatsAgreeWithLifetime | Controllers/attendance.js:175-180 | the history view's four count queries equal the lifetime report's per-user totals |
| AttendanceStats.MonthIndex | Controllers/attendance.js:290-297 | a found index is below 12 and names that month; nothing is found iff the name is not a full English month name |
| AttendanceStats.MonthIndexOfName | Controllers/attendance.js:290-293 | looking up the name of month i gives i |
| SalaryCalculation.MonthPrefix | Controllers/salaryController.js:42-43 | the prefix is the year, a dash and two digits: three characters longer than the year |
| SalaryCalculation.MonthPrefixSelectsMonth | Controllers/salaryController.js:42-48 | for four-digit years a date has the prefix iff it is in that year and month |
| SalaryCalculation.MonthRecords | Controllers/salaryController.js:45-48 | a record is selected iff it belongs to the employee and its date starts with the prefix |
| SalaryCalculation.LateCount | Controllers/salaryController.js:50 | the late count is at most the number of the month's records |
| SalaryCalculation.DeductibleDays | Controllers/salaryController.js:53 | 3 × days ≤ lates < 3 × (days + 1), i.e. floor(lates / 3) |
| SalaryCalculation.RoundThirtieth | Controllers/salaryController.js:66 | the nearest integer to n / 30, halves rounded up |
| SalaryCalculation.DeductionAmount | Controllers/salaryController.js:56-57 | the nearest integer to salary × days / 30; zero days deduct nothing |
| SalaryCalculation.DeductibleDaysMonotone | Controllers/salaryController.js:53 | more lates never give fewer deductible days |
| SalaryCalculation.DeductibleDaysStep | Controllers/salaryController.js:53 | one more late adds a day exactly when it reaches a multiple of three |
| SalaryCalculation.DeductionMonotone | Controllers/salaryController.js:53-57 | for a non-negative salary more lates never give a smaller deduction |
| SalaryCalculation.CalculateSalary | Controllers/salaryController.js:17-66 | missing parameters iff a parameter is empty; not found iff the employee is unknown; otherwise the month's Late count, floor(lates/3) days, a deduction of 0 below three lates and the rounded salary × days / 30 otherwise, the salary (0 if missing) and its rounded thirtieth |
| SalaryCalculation.SevenLatesExample | Controllers/salaryController.js:53-66 | seven lates on 30000: two days, a daily rate of 1000, 2000 deducted |
| SalaryLifecycle.NewSalary | Controllers/salaryController.js:84-98 | key and creator as requested, missing amounts 0, net = basic + allowances − deductions, status Pending, no payment fields |
| SalaryLifecycle.Patched | Controllers/salaryController.js:309-317 | each supplied field replaced, every other field kept, net recomputed from the new amounts |
| SalaryLifecycle.EmptyPatchKeepsRecord | Controllers/salaryController.js:309-317 | an update supplying no field leaves a balanced record unchanged |
| SalaryLifecycle.PayerName | Controllers/salaryController.js:214 | a supplied payer is kept; otherwise `Manager`; never empty |
| SalaryLifecycle.ReplaceKeepsKeysUnique | Models/Salary.js:74 | rewriting a record without changing its key keeps the key unique |
| SalaryLifecycle.ApplyPatch | Controllers/salaryController.js:309-317 | the field-by-field update computes exactly `Patched` |
| SalaryLifecycle.SalaryBook.FindOne | utils/payrollJob.js:23-27 | finds an id holding the key, and finds none iff no record has the key |
| SalaryLifecycle.SalaryBook.Insert | Models/Salary.js:74 | a duplicate key is refused and nothing changes; otherwise the record is stored under a fresh id |
| SalaryLifecycle.SalaryBook.CreateChecked | Models/Salary.js:43-47 | a status outside Pending/Paid fails validation and nothing is stored; otherwise a duplicate key is refused and a new record is stored under a fresh id |
| SalaryLifecycle.SalaryBook.CreateSalary | Controllers/salaryController.js:79-98 | validation error iff employee, month or year is missing; duplicate iff the key exists; otherwise stores `NewSalary`; Paid records untouched |
| SalaryLifecycle.SalaryBook.UpdateSalary | Controllers/salaryController.js:290-319 | not found iff no record; refused iff Paid; otherwise replaces the record by `Patched` and nothing else; Paid records untouched |
| SalaryLifecycle.SalaryBook.PaySalary | Controllers/salaryController.js:162-238 | not found, already Paid and no payment account are refused with nothing changed. Otherwise the record becomes Paid with account, transaction id and date. The ledger entry carries the record's net pay, the account, the transaction id, the record and the acting user. The audit-log entry carries the payer (default `Manager`) |
| SalaryLifecycle.SalaryBook.DeleteSalary | Controllers/salaryController.js:352-368 | not found iff no record; refused iff Paid; otherwise removes exactly that record |
| SalaryLifecycle.TotalNet | Controllers/salaryController.js:133-139 | the total net pay is non-negative when every record's is |
| SalaryLifecycle.SumNet | Controllers/salaryController.js:133-139 | a per-status net sum lies between 0 and the total net when every record's net is non-negative |
| SalaryLifecycle.ListingTotals | Controllers/salaryController.js:133-139 | Paid plus Pending totals equal the overall net minus the Unpaid records' net |
| SalaryLifecycle.SumNetAppend | Controllers/salaryController.js:133-139 | a per-status net sum over two parts is the sum over each part |
| SalaryLifecycle.ListingTotalsOfOne | Controllers/salaryController.js:133-139 | one record's net goes to the paid total when it is Paid, to the pending total when it is Pending, and nowhere when it is Unpaid |
| SalaryLifecycle.ListingTotalsSplit | Controllers/salaryController.js:133-139 | both listing totals over two parts are the sums of the totals over each part |
| SalaryLifecycle.PayingPendingMovesListingTotals | Controllers/salaryController.js:133-139 | paying a Pending record raises the listing's paid total by its net and lowers the pending total by the same amount |
| SalaryLifecycle.EmployeeOverall | Controllers/salaryController.js:391-395 | Paid plus Unpaid totals equal the overall net minus the Pending records' net; the count is the number of records |
| SalaryLifecycle.NetByStatus | Controllers/salaryController.js:392-393 | the per-status net sums add up to the total net |
| SalaryLifecycle.SumNetReplace | Controllers/salaryController.js:133-135 | replacing one record moves its net out of its old status's sum and into its new one |
| SalaryLifecycle.EmployeeOverallOfOne | Controllers/salaryController.js:391-395 | one record is counted once, and its net goes to the paid total when it is Paid, to the unpaid total when it is Unpaid, and nowhere when it is Pending |
| SalaryLifecycle.EmployeeOverallSplit | Controllers/salaryController.js:391-395 | the overview's totals and count over two parts are the sums over each part |
| SalaryLifecycle.PayingMovesNet | Controllers/salaryController.js:210 | paying a record adds its net to the Paid total, removes it from its old status's total, and leaves the third total alone |
| PayrollJob.Seed | utils/payrollJob.js:30-38 | the job's record: basic = net = the employee's salary or 0, status Unpaid (outside the schema's enumeration), created by the employee |
| PayrollJob.SeedIfMissing | utils/payrollJob.js:23-42 | creates the employee's seed iff no record has the key, and otherwise changes nothing; the employee has a record afterwards |
| PayrollJob.SeededStep | utils/payrollJob.js:21-43 | one iteration keeps the progress invariant of the loop |
| PayrollJob.CreatedStep | utils/payrollJob.js:29-39 | a newly created seed keeps the progress invariant |
| PayrollJob.SeededDone | utils/payrollJob.js:21-43 | after the loop every employee has a record and every new record is the seed of an employee who had none |
| PayrollJob.GenerateMonthlySalaries | utils/payrollJob.js:16-46 | created + skipped = number of active employees; existing records kept; store grows by the created count; every active employee has a record; each new record is the seed of an active employee who had none; nothing created iff all had one |
| PayrollJob.RerunCreatesNothing | utils/payrollJob.js:21-43 | a second run in the same month creates nothing and skips every active employee |
| PayrollJob.GenerateMonthlySalariesAsWritten | utils/payrollJob.js:21-49 | with the schema's enumeration applied the store never changes; the run fails with a validation error iff some active employee has no record, and otherwise creates nothing and skips everyone |
| PayrollJob.OneNewEmployee | utils/payrollJob.js:30-38 | for one active employee and no records, the job as written fails validation while the corrected job creates and stores one record |

## Findings

| source | as written | input that shows it | evidently intended | confidence | as-written member | corrected member |
|---|---|---|---|---|---|---|
| utils/payrollJob.js:36 | the job creates each seed with status `Unpaid`, which the enumeration at Models/Salary.js:45 does not admit, so the create fails validation and the error ends the run (utils/payrollJob.js:47-49) | one active employee with no salary record for the month | the job seeds an Unpaid record per active employee, as the per-employee overviews that total `Unpaid` records expect (Controllers/salaryController.js:393, 425), i.e. the enumeration admits `Unpaid` | high, not executed | PayrollJob.GenerateMonthlySalariesAsWritten | PayrollJob.GenerateMonthlySalaries |

## Left out

- The live clock and time zone. Marking takes a wall-clock `Clock` and a date string already in the organisation's time zone. The job takes month and year. Controllers/employee.js, which derives its date in UTC rather than in that zone, is not part of this model.
- The month-name parse of the salary calculation (`new Date(...)`): `CalculateSalary` takes the 0-based month index as an input.
- Regular-expression metacharacters in the `year` parameter of the salary calculation: the prefix is matched literally.
- Sorting and limiting of queries: histories are given newest first. `Newest` models the ten-record limit.
- The date-range query of the monthly report: `MonthlyStatsOf` is given the month's records.
- PDF rendering, response shapes and messages, `populate`, activity-log entries other than the payment's, and console output: these are output and I/O.
- The payment-account resolution of the pay request (ObjectId check, case-insensitive lookup, auto-creation): `PaySalary` takes the resolved account as an `Option`. The transaction is returned instead of stored.
- Floating-point display values (overtime hours, currency formatting). Salary amounts are integers: fractional amounts and NaN are not modelled.
- Mongoose validation: required fields other than employee/month/year of a create, type casts and `trim`. The status enumeration is applied only by `SalaryBook.CreateChecked`; see Findings.
- SalaryLifecycle.SalaryBook.PaySalary: returns its ledger and audit-log entries instead of storing them, and leaves out the log's description and previous/new values.
- Aggregation and count-query mechanics: reports are folds over a record sequence. A missing counter counts as 0.
- Concurrency: two requests racing between the lookup and the write could create duplicate records. The model is sequential.
- The other controllers (authentication, employees, expenses, transactions, payment accounts, documents, uploads) and the remaining read-only salary and attendance endpoints, which only query and return records.
