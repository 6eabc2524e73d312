/**
 * The salary record of one employee for one month, with the schema's
 * defaults and its compound unique key (employee, month, year).
 */
module SalarySchema {
  import opened Wrappers
  import opened Directory

  /**
   * The statuses the model needs. The schema's enumeration admits only
   * Pending (its default) and Paid; the monthly payroll job writes Unpaid.
   */
  datatype SalaryStatus = Pending | Unpaid | Paid

  /** The statuses the schema's enumeration admits. */
  predicate SchemaStatus(s: SalaryStatus) {
    s == Pending || s == Paid
  }

  /** `month` is a full English month name; `paidDate` is the date of payment as the clock renders it. */
  datatype Salary = Salary(
    employee: UserId,
    month: string,
    year: int,
    basicSalary: int,
    allowances: int,
    deductions: int,
    lateDays: int,
    lateDeduction: int,
    netSalary: int,
    status: SalaryStatus,
    paymentAccount: Option<string>,
    transactionId: Option<string>,
    paidDate: Option<string>,
    notes: Option<string>,
    createdBy: UserId)

  /** Net pay is basic pay plus allowances minus deductions. */
  predicate NetBalanced(s: Salary) {
    s.netSalary == s.basicSalary + s.allowances - s.deductions
  }

  /** The fields of the compound unique index. */
  predicate SameKey(s: Salary, employee: UserId, month: string, year: int) {
    s.employee == employee && s.month == month && s.year == year
  }

  /** At most one record per (employee, month, year). */
  ghost predicate UniqueKeys(salaries: map<nat, Salary>) {
    forall i, j :: i in salaries && j in salaries && SameKey(salaries[i], salaries[j].employee, salaries[j].month, salaries[j].year) ==> i == j
  }
}
