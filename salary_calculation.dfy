/**
 * The salary calculation request: a month's Late records become whole
 * deductible days (three lates per day) and a deduction at a fixed daily
 * rate of one thirtieth of the base salary. All arithmetic is on exact
 * integers.
 */
module SalaryCalculation {
  import opened Wrappers
  import opened Directory
  import opened WallClock
  import opened AttendanceSchema
  import opened AttendanceStats

  const DaysPerMonth := 30
  const LatesPerDeductibleDay := 3

  /** `^YYYY-MM`: the date prefix shared by the records of month `monthIndex` (0-11) of `year`. */
  function MonthPrefix(year: string, monthIndex: nat): (p: string)
    requires monthIndex < 12
    ensures |p| == |year| + 3
  {
    year + "-" + TwoDigits(monthIndex + 1)
  }

  /**
   * For four-digit years the prefix selects exactly the dates of that
   * year and month.
   */
  lemma MonthPrefixSelectsMonth(year: nat, monthIndex: nat, y: nat, m: nat, d: nat)
    requires year < 10000 && monthIndex < 12
    requires y < 10000 && 1 <= m <= 12 && 1 <= d <= 31
    ensures MonthPrefix(FourDigits(year), monthIndex) <= FormatDate(y, m, d) <==> year == y && m == monthIndex + 1
  {
    var p := MonthPrefix(FourDigits(year), monthIndex);
    var date := FormatDate(y, m, d);
    assert date[..7] == FourDigits(y) + "-" + TwoDigits(m);
    if p <= date {
      assert p == date[..7];
      assert p[..4] == FourDigits(year) && date[..7][..4] == FourDigits(y);
      FourDigitsInjective(year, y);
      assert p[5..] == TwoDigits(monthIndex + 1) && date[..7][5..] == TwoDigits(m);
    }
  }

  /** The query for one employee's records whose date starts with `prefix`. */
  function MonthRecords(records: seq<Attendance>, employee: UserId, prefix: string): (r: seq<Attendance>)
    ensures |r| <= |records|
    ensures forall a :: a in r <==> a in records && a.user == employee && prefix <= a.date
  {
    if records == [] then []
    else
      assert records == [records[0]] + records[1..];
      (if records[0].user == employee && prefix <= records[0].date then [records[0]] else [])
        + MonthRecords(records[1..], employee, prefix)
  }

  /** The number of the employee's Late records in the month. */
  function LateCount(records: seq<Attendance>, employee: UserId, prefix: string): (n: nat)
    ensures n <= |MonthRecords(records, employee, prefix)|
  {
    CountStatus(MonthRecords(records, employee, prefix), Late)
  }

  /** Every three lates make one deductible day; a remainder of one or two lates deducts nothing. */
  function DeductibleDays(lateCount: nat): (days: nat)
    ensures LatesPerDeductibleDay * days <= lateCount < LatesPerDeductibleDay * (days + 1)
  {
    lateCount / LatesPerDeductibleDay
  }

  /** `Math.round(n / 30)`: the nearest integer, halves rounded up. */
  function RoundThirtieth(n: int): (r: int)
    ensures 2 * DaysPerMonth * r - DaysPerMonth <= 2 * n < 2 * DaysPerMonth * r + DaysPerMonth
  {
    (2 * n + DaysPerMonth) / (2 * DaysPerMonth)
  }

  /** `Math.round(salary / 30 * days)`, computed exactly. */
  function DeductionAmount(salary: int, days: nat): (amount: int)
    ensures days == 0 ==> amount == 0
    ensures 60 * amount - 30 <= 2 * (salary * days) < 60 * amount + 30
  {
    RoundThirtieth(salary * days)
  }

  lemma DeductibleDaysMonotone(lates: nat, lates': nat)
    requires lates <= lates'
    ensures DeductibleDays(lates) <= DeductibleDays(lates')
  {
  }

  /** One more late adds a deductible day exactly when it completes a multiple of three. */
  lemma DeductibleDaysStep(lates: nat)
    ensures DeductibleDays(lates + 1) == DeductibleDays(lates) + (if (lates + 1) % 3 == 0 then 1 else 0)
  {
  }

  /** For a non-negative salary, more lates never mean a smaller deduction. */
  lemma DeductionMonotone(salary: int, lates: nat, lates': nat)
    requires salary >= 0 && lates <= lates'
    ensures DeductionAmount(salary, DeductibleDays(lates)) <= DeductionAmount(salary, DeductibleDays(lates'))
  {
    var d, d' := DeductibleDays(lates), DeductibleDays(lates');
    DeductibleDaysMonotone(lates, lates');
    assert salary * d' - salary * d == salary * (d' - d);
    assert salary * (d' - d) >= 0;
  }

  datatype Calculation = Calculation(
    lateDays: nat, deductibleDays: nat, deductionAmount: int, basicSalary: int, dailyRate: int)

  datatype CalculationError = MissingParameters | EmployeeNotFound

  /**
   * The salary calculation for `employeeId` in `month` of `year`. The three
   * request parameters are strings, empty when not supplied; `monthIndex`
   * (0-11) is the month the name denotes. `directory` answers the employee
   * lookup and `attendance` holds the stored attendance records.
   */
  function CalculateSalary(employeeId: UserId, month: string, year: string, monthIndex: nat,
                           directory: map<UserId, Employee>, attendance: seq<Attendance>)
    : (r: Result<Calculation, CalculationError>)
    requires monthIndex < 12
    ensures r == Err(MissingParameters) <==> employeeId == "" || month == "" || year == ""
    ensures r == Err(EmployeeNotFound) <==> employeeId != "" && month != "" && year != "" && employeeId !in directory
    ensures r.Ok? ==>
      var c, salary := r.value, directory[employeeId].salary.GetOr(0);
      && employeeId in directory
      && c.lateDays == LateCount(attendance, employeeId, MonthPrefix(year, monthIndex))
      && c.basicSalary == salary
      && 3 * c.deductibleDays <= c.lateDays < 3 * c.deductibleDays + 3
      && (c.lateDays < 3 ==> c.deductionAmount == 0)
      && 60 * c.deductionAmount - 30 <= 2 * (salary * c.deductibleDays) < 60 * c.deductionAmount + 30
      && 60 * c.dailyRate - 30 <= 2 * salary < 60 * c.dailyRate + 30
  {
    if employeeId == "" || month == "" || year == "" then Err(MissingParameters)
    else if employeeId !in directory then Err(EmployeeNotFound)
    else
      var salary := directory[employeeId].salary.GetOr(0);
      var lateCount := LateCount(attendance, employeeId, MonthPrefix(year, monthIndex));
      var deductibleDays := DeductibleDays(lateCount);
      Ok(Calculation(lateCount, deductibleDays, DeductionAmount(salary, deductibleDays), salary,
                     RoundThirtieth(salary)))
  }

  /** Seven lates on a base salary of 30000: a daily rate of 1000, two deductible days, 2000 deducted. */
  lemma SevenLatesExample()
    ensures DeductibleDays(7) == 2 && RoundThirtieth(30000) == 1000
    ensures DeductionAmount(30000, DeductibleDays(7)) == 2000
  {
  }
}
