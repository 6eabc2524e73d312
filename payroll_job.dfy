/**
 * The monthly payroll job: one salary record per active employee for the
 * current month, created only where none exists yet.
 */
module PayrollJob {
  import opened Wrappers
  import opened Directory
  import opened SalarySchema
  import opened SalaryLifecycle

  /**
   * The record the job creates for `e`: basic and net pay both the
   * employee's salary (0 when it has none), status Unpaid, created by the
   * employee itself. Its status is outside the schema's enumeration.
   */
  function Seed(e: Employee, month: string, year: int): (s: Salary)
    ensures SameKey(s, e.id, month, year)
    ensures s.basicSalary == s.netSalary == e.salary.GetOr(0) && NetBalanced(s)
    ensures s.status == Unpaid && !SchemaStatus(s.status)
    ensures s.paymentAccount.None? && s.transactionId.None? && s.paidDate.None?
  {
    Salary(e.id, month, year, e.salary.GetOr(0), 0, 0, 0, 0, e.salary.GetOr(0),
           Unpaid, None, None, None, None, e.id)
  }

  /** `after` keeps every record of `before` unchanged. */
  ghost predicate Extends(before: map<nat, Salary>, after: map<nat, Salary>) {
    forall id :: id in before ==> id in after && after[id] == before[id]
  }

  lemma HasRecordExtends(before: map<nat, Salary>, after: map<nat, Salary>, employee: UserId, month: string, year: int)
    requires Extends(before, after) && HasRecord(before, employee, month, year)
    ensures HasRecord(after, employee, month, year)
  {
    var w :| w in before && SameKey(before[w], employee, month, year);
    assert w in after && after[w] == before[w];
  }

  /**
   * One iteration of the job: look `emp` up for the month and create its
   * seed record if none exists. Returns the new record's id, if any.
   */
  method SeedIfMissing(book: SalaryBook, emp: Employee, month: string, year: int) returns (created: Option<nat>)
    requires book.Valid()
    modifies book
    ensures book.Valid()
    ensures created.None? <==> HasRecord(old(book.salaries), emp.id, month, year)
    ensures created.None? ==> book.salaries == old(book.salaries)
    ensures created.Some? ==>
      created.value !in old(book.salaries) && book.salaries == old(book.salaries)[created.value := Seed(emp, month, year)]
    ensures Extends(old(book.salaries), book.salaries)
    ensures HasRecord(book.salaries, emp.id, month, year)
  {
    var existing := book.FindOne(emp.id, month, year);
    if existing.None? {
      var res := book.Insert(Seed(emp, month, year));
      assert SameKey(book.salaries[res.value], emp.id, month, year);
      created := Some(res.value);
    } else {
      created := None;
    }
  }

  /**
   * The job's progress after the first `i` employees: old records kept,
   * each of those employees has a record, and each new record (listed in
   * `origin` with the employee it was made for) is that employee's seed
   * and was made only because the employee had none.
   */
  ghost predicate Seeded(before: map<nat, Salary>, after: map<nat, Salary>, employees: seq<Employee>, i: nat,
                         origin: map<nat, Employee>, month: string, year: int)
    requires i <= |employees|
  {
    && Extends(before, after)
    && (forall j :: 0 <= j < i ==> HasRecord(after, employees[j].id, month, year))
    && (forall id :: id in after && id !in before ==> id in origin)
    && (forall id :: id in origin ==>
          && id in after && id !in before && origin[id] in employees
          && after[id] == Seed(origin[id], month, year)
          && !HasRecord(before, origin[id].id, month, year))
  }

  /** One iteration keeps the progress: a skipped employee adds nothing, a created seed joins `origin`. */
  lemma SeededStep(before: map<nat, Salary>, mid: map<nat, Salary>, after: map<nat, Salary>,
                   employees: seq<Employee>, i: nat, origin: map<nat, Employee>, created: Option<nat>,
                   month: string, year: int)
    requires i < |employees| && Seeded(before, mid, employees, i, origin, month, year)
    requires created.None? ==> after == mid && HasRecord(mid, employees[i].id, month, year)
    requires created.Some? ==>
      && created.value !in mid && !HasRecord(mid, employees[i].id, month, year)
      && after == mid[created.value := Seed(employees[i], month, year)]
    ensures Seeded(before, after, employees, i + 1,
                   if created.Some? then origin[created.value := employees[i]] else origin, month, year)
  {
    if created.Some? {
      CreatedStep(before, mid, after, employees, i, origin, created.value, month, year);
    }
  }

  /** A seed stored under a fresh id is recorded in the origin map. */
  lemma CreatedStep(before: map<nat, Salary>, mid: map<nat, Salary>, after: map<nat, Salary>,
                    employees: seq<Employee>, i: nat, origin: map<nat, Employee>, id: nat,
                    month: string, year: int)
    requires i < |employees| && Seeded(before, mid, employees, i, origin, month, year)
    requires id !in mid && !HasRecord(mid, employees[i].id, month, year)
    requires after == mid[id := Seed(employees[i], month, year)]
    ensures Seeded(before, after, employees, i + 1, origin[id := employees[i]], month, year)
  {
    var emp := employees[i];
    assert Extends(mid, after);
    forall j | 0 <= j <= i
      ensures HasRecord(after, employees[j].id, month, year)
    {
      if j < i {
        HasRecordExtends(mid, after, employees[j].id, month, year);
      } else {
        assert SameKey(after[id], emp.id, month, year);
      }
    }
    assert !HasRecord(before, emp.id, month, year) by {
      if HasRecord(before, emp.id, month, year) {
        HasRecordExtends(before, mid, emp.id, month, year);
      }
    }
    var origin' := origin[id := emp];
    forall k | k in origin'
      ensures k in after && k !in before && origin'[k] in employees
      ensures after[k] == Seed(origin'[k], month, year)
      ensures !HasRecord(before, origin'[k].id, month, year)
    {
      if k != id {
        assert k in origin && k in mid;
      }
    }
  }

  /** What the job promises, read off its progress once every employee is done. */
  lemma SeededDone(before: map<nat, Salary>, after: map<nat, Salary>, employees: seq<Employee>,
                   origin: map<nat, Employee>, month: string, year: int)
    requires Seeded(before, after, employees, |employees|, origin, month, year)
    requires origin == map[] ==> after == before
    ensures forall e :: e in employees ==> HasRecord(after, e.id, month, year)
    ensures forall id :: id in after && id !in before ==>
      exists e :: e in employees && after[id] == Seed(e, month, year) && !HasRecord(before, e.id, month, year)
    ensures origin == map[] <==> forall e :: e in employees ==> HasRecord(before, e.id, month, year)
  {
    forall e | e in employees
      ensures HasRecord(after, e.id, month, year)
    {
      var j :| 0 <= j < |employees| && employees[j] == e;
    }
    forall id | id in after && id !in before
      ensures exists e :: e in employees && after[id] == Seed(e, month, year) && !HasRecord(before, e.id, month, year)
    {
      assert origin[id] in employees;
    }
    if origin != map[] {
      var id :| id in origin;
      assert origin[id] in employees && !HasRecord(before, origin[id].id, month, year);
    }
  }

  /**
   * Seeds `month`/`year` (passed in for the clock) for the active employees
   * among `users`. Returns how many records it created and how many
   * employees it skipped because they already had one.
   */
  method GenerateMonthlySalaries(book: SalaryBook, users: seq<Employee>, month: string, year: int)
    returns (createdCount: nat, skippedCount: nat)
    requires book.Valid()
    modifies book
    ensures book.Valid()
    ensures createdCount + skippedCount == |ActiveEmployees(users)|
    ensures |book.salaries| == |old(book.salaries)| + createdCount
    ensures Extends(old(book.salaries), book.salaries)
    ensures forall e :: e in ActiveEmployees(users) ==> HasRecord(book.salaries, e.id, month, year)
    ensures forall id :: id in book.salaries && id !in old(book.salaries) ==>
      exists e :: e in ActiveEmployees(users) && book.salaries[id] == Seed(e, month, year)
                  && !HasRecord(old(book.salaries), e.id, month, year)
    ensures createdCount == 0 <==>
      forall e :: e in ActiveEmployees(users) ==> HasRecord(old(book.salaries), e.id, month, year)
  {
    var employees := ActiveEmployees(users);
    createdCount, skippedCount := 0, 0;
    ghost var before := book.salaries;
    ghost var origin: map<nat, Employee> := map[];
    var i := 0;
    while i < |employees|
      invariant 0 <= i <= |employees|
      invariant book.Valid()
      invariant createdCount + skippedCount == i
      invariant |book.salaries| == |before| + createdCount
      invariant Seeded(before, book.salaries, employees, i, origin, month, year)
      invariant createdCount == 0 <==> origin == map[]
      invariant createdCount == 0 ==> book.salaries == before
    {
      var emp := employees[i];
      ghost var mid := book.salaries;
      var created := SeedIfMissing(book, emp, month, year);
      SeededStep(before, mid, book.salaries, employees, i, origin, created, month, year);
      if created.Some? {
        origin := origin[created.value := emp];
        createdCount := createdCount + 1;
      } else {
        skippedCount := skippedCount + 1;
      }
      i := i + 1;
    }
    SeededDone(before, book.salaries, employees, origin, month, year);
  }

  /** Running the job a second time in the same month creates nothing and skips every active employee. */
  method RerunCreatesNothing(book: SalaryBook, users: seq<Employee>, month: string, year: int)
    returns (createdCount: nat, skippedCount: nat)
    requires book.Valid()
    modifies book
    ensures createdCount == 0 && skippedCount == |ActiveEmployees(users)|
    ensures book.Valid()
  {
    var _, _ := GenerateMonthlySalaries(book, users, month, year);
    createdCount, skippedCount := GenerateMonthlySalaries(book, users, month, year);
  }

  /**
   * The job as written, over a store that applies the schema's status
   * enumeration: the first employee without a record makes the create of an
   * Unpaid seed fail validation, and the error ends the run. Records seeded
   * before that point would be kept, but no seed can pass validation, so the
   * run never changes the store.
   */
  method GenerateMonthlySalariesAsWritten(book: SalaryBook, users: seq<Employee>, month: string, year: int)
    returns (res: Result<(nat, nat), SalaryError>)
    requires book.Valid()
    modifies book
    ensures book.Valid() && book.salaries == old(book.salaries)
    ensures res.Err? <==> exists e :: e in ActiveEmployees(users) && !HasRecord(old(book.salaries), e.id, month, year)
    ensures res.Err? ==> res.error == ValidationFailed
    ensures res.Ok? ==> res.value == (0, |ActiveEmployees(users)|)
  {
    var employees := ActiveEmployees(users);
    var createdCount, skippedCount := 0, 0;
    var i := 0;
    while i < |employees|
      invariant 0 <= i <= |employees|
      invariant book.Valid() && book.salaries == old(book.salaries)
      invariant createdCount == 0 && skippedCount == i
      invariant forall j :: 0 <= j < i ==> HasRecord(book.salaries, employees[j].id, month, year)
    {
      var emp := employees[i];
      var existing := book.FindOne(emp.id, month, year);
      if existing.None? {
        var created := book.CreateChecked(Seed(emp, month, year));
        if created.Err? {
          return Err(created.error);
        }
        createdCount := createdCount + 1;
      } else {
        skippedCount := skippedCount + 1;
      }
      i := i + 1;
    }
    forall e | e in employees
      ensures HasRecord(old(book.salaries), e.id, month, year)
    {
      var j :| 0 <= j < |employees| && employees[j] == e;
    }
    res := Ok((createdCount, skippedCount));
  }

  /**
   * One active employee and no salary records yet: the job as written fails
   * and stores nothing, while the job over a store that admits Unpaid creates
   * the employee's record.
   */
  method OneNewEmployee() returns (asWritten: Result<(nat, nat), SalaryError>, created: nat, stored: nat)
    ensures asWritten == Err(ValidationFailed)
    ensures created == 1 && stored == 1
  {
    var e := Employee("e1", EmployeeRole, Active, Some(30000));
    assert ActiveEmployees([e]) == [e];
    var strict := new SalaryBook();
    asWritten := GenerateMonthlySalariesAsWritten(strict, [e], "January", 2026);
    var book := new SalaryBook();
    var skipped;
    created, skipped := GenerateMonthlySalaries(book, [e], "January", 2026);
    stored := |book.salaries|;
  }
}
