/**
 * The salary collection and the requests that change it: create, update,
 * pay and delete, each refused once a record is Paid, and the Paid/Pending
 * totals of the two salary listings.
 */
module SalaryLifecycle {
  import opened Wrappers
  import opened Directory
  import opened SalarySchema

  datatype SalaryError =
    | ValidationFailed
    | DuplicateSalaryRecord
    | NotFound
    | AlreadyPaid
    | CannotModifyPaid
    | CannotDeletePaid
    | PaymentAccountNotFound

  /** The body of a create request; `None` is a field the caller left out, `""` a missing string. */
  datatype CreateRequest = CreateRequest(
    employee: UserId, month: string, year: Option<int>,
    basicSalary: Option<int>, allowances: Option<int>, deductions: Option<int>,
    lateDays: Option<int>, lateDeduction: Option<int>, notes: Option<string>)

  /** The body of an update request; only the supplied fields are written. */
  datatype UpdateRequest = UpdateRequest(
    basicSalary: Option<int>, allowances: Option<int>, deductions: Option<int>,
    lateDays: Option<int>, lateDeduction: Option<int>, notes: Option<string>)

  /** The ledger entry a payment records; its schema has no field for the payer. */
  datatype Transaction = Transaction(
    amount: int, paymentAccount: string, transactionId: Option<string>,
    relatedSalary: nat, createdBy: UserId)

  /** The audit-log entry of a payment: the only record that keeps who paid. */
  datatype PaymentLog = PaymentLog(
    targetId: nat, transactionId: Option<string>, performedBy: string, user: UserId)

  /** What a successful payment writes besides the salary record. */
  datatype Payment = Payment(transaction: Transaction, log: PaymentLog)

  /** Some record in `salaries` has the key (employee, month, year). */
  ghost predicate HasRecord(salaries: map<nat, Salary>, employee: UserId, month: string, year: int) {
    exists id :: id in salaries && SameKey(salaries[id], employee, month, year)
  }

  /** Every record that was Paid in `before` is still there, unchanged, in `after`. */
  ghost predicate PaidKept(before: map<nat, Salary>, after: map<nat, Salary>) {
    forall id :: id in before && before[id].status == Paid ==> id in after && after[id] == before[id]
  }

  /**
   * The record a create request builds: missing amounts take their default
   * 0, net pay is computed from them, and the status is the default Pending.
   */
  function NewSalary(req: CreateRequest, createdBy: UserId): (s: Salary)
    requires req.year.Some?
    ensures SameKey(s, req.employee, req.month, req.year.value) && s.createdBy == createdBy
    ensures NetBalanced(s) && s.status == Pending && SchemaStatus(s.status)
    ensures s.basicSalary == req.basicSalary.GetOr(0) && s.allowances == req.allowances.GetOr(0)
    ensures s.deductions == req.deductions.GetOr(0)
    ensures s.lateDays == req.lateDays.GetOr(0) && s.lateDeduction == req.lateDeduction.GetOr(0)
    ensures s.paymentAccount.None? && s.transactionId.None? && s.paidDate.None?
  {
    var basic, allowances, deductions := req.basicSalary.GetOr(0), req.allowances.GetOr(0), req.deductions.GetOr(0);
    Salary(req.employee, req.month, req.year.value, basic, allowances, deductions,
           req.lateDays.GetOr(0), req.lateDeduction.GetOr(0), basic + allowances - deductions,
           Pending, None, None, None, req.notes, createdBy)
  }

  /**
   * A record after an update: each supplied field replaced, every other
   * field kept, and net pay recomputed from the new amounts.
   */
  function Patched(s: Salary, p: UpdateRequest): (r: Salary)
    ensures NetBalanced(r)
    ensures r.basicSalary == (if p.basicSalary.Some? then p.basicSalary.value else s.basicSalary)
    ensures r.allowances == (if p.allowances.Some? then p.allowances.value else s.allowances)
    ensures r.deductions == (if p.deductions.Some? then p.deductions.value else s.deductions)
    ensures r.lateDays == (if p.lateDays.Some? then p.lateDays.value else s.lateDays)
    ensures r.lateDeduction == (if p.lateDeduction.Some? then p.lateDeduction.value else s.lateDeduction)
    ensures r.notes == (if p.notes.Some? then p.notes else s.notes)
    ensures r.(basicSalary := s.basicSalary, allowances := s.allowances, deductions := s.deductions,
               lateDays := s.lateDays, lateDeduction := s.lateDeduction, notes := s.notes,
               netSalary := s.netSalary) == s
  {
    var basic := p.basicSalary.GetOr(s.basicSalary);
    var allowances := p.allowances.GetOr(s.allowances);
    var deductions := p.deductions.GetOr(s.deductions);
    s.(basicSalary := basic, allowances := allowances, deductions := deductions,
       lateDays := p.lateDays.GetOr(s.lateDays), lateDeduction := p.lateDeduction.GetOr(s.lateDeduction),
       notes := if p.notes.Some? then p.notes else s.notes,
       netSalary := basic + allowances - deductions)
  }

  /** An update that supplies no field leaves a balanced record exactly as it was. */
  lemma EmptyPatchKeepsRecord(s: Salary)
    requires NetBalanced(s)
    ensures Patched(s, UpdateRequest(None, None, None, None, None, None)) == s
  {
  }

  /** `paidBy || 'Manager'`. */
  function PayerName(paidBy: string): (name: string)
    ensures name != ""
    ensures paidBy != "" ==> name == paidBy
  {
    if paidBy == "" then "Manager" else paidBy
  }

  /** Rewriting a record without touching its key fields keeps the key unique. */
  lemma ReplaceKeepsKeysUnique(salaries: map<nat, Salary>, id: nat, s: Salary)
    requires UniqueKeys(salaries) && id in salaries
    requires SameKey(s, salaries[id].employee, salaries[id].month, salaries[id].year)
    ensures UniqueKeys(salaries[id := s])
  {
  }

  /** The controller's field-by-field copy of the supplied fields, then the net-pay recomputation. */
  method ApplyPatch(s: Salary, patch: UpdateRequest) returns (salary: Salary)
    ensures salary == Patched(s, patch)
  {
    salary := s;
    if patch.basicSalary.Some? { salary := salary.(basicSalary := patch.basicSalary.value); }
    if patch.allowances.Some? { salary := salary.(allowances := patch.allowances.value); }
    if patch.deductions.Some? { salary := salary.(deductions := patch.deductions.value); }
    if patch.lateDays.Some? { salary := salary.(lateDays := patch.lateDays.value); }
    if patch.lateDeduction.Some? { salary := salary.(lateDeduction := patch.lateDeduction.value); }
    if patch.notes.Some? { salary := salary.(notes := patch.notes); }
    salary := salary.(netSalary := salary.basicSalary + salary.allowances - salary.deductions);
  }

  class SalaryBook {
    var salaries: map<nat, Salary>
    var nextId: nat

    /** Ids are below `nextId`, the compound key is unique, and every record's net pay is balanced. */
    ghost predicate Valid()
      reads this
    {
      && (forall id :: id in salaries ==> id < nextId)
      && UniqueKeys(salaries)
      && (forall id :: id in salaries ==> NetBalanced(salaries[id]))
    }

    constructor ()
      ensures Valid() && salaries == map[]
    {
      salaries := map[];
      nextId := 0;
    }

    /** The `findOne({ employee, month, year })` lookup. */
    method FindOne(employee: UserId, month: string, year: int) returns (r: Option<nat>)
      requires Valid()
      ensures r.Some? ==> r.value in salaries && SameKey(salaries[r.value], employee, month, year)
      ensures r.None? <==> !HasRecord(salaries, employee, month, year)
    {
      if exists id :: id in salaries && SameKey(salaries[id], employee, month, year) {
        var id :| id in salaries && SameKey(salaries[id], employee, month, year);
        r := Some(id);
      } else {
        r := None;
      }
    }

    /** `Salary.create`: stores `s` under a fresh id unless the unique index already holds its key. */
    method Insert(s: Salary) returns (res: Result<nat, SalaryError>)
      requires Valid() && NetBalanced(s)
      modifies this
      ensures Valid()
      ensures res.Err? <==> HasRecord(old(salaries), s.employee, s.month, s.year)
      ensures res.Err? ==> res.error == DuplicateSalaryRecord && salaries == old(salaries)
      ensures res.Ok? ==> res.value !in old(salaries) && salaries == old(salaries)[res.value := s]
    {
      var existing := FindOne(s.employee, s.month, s.year);
      if existing.Some? {
        return Err(DuplicateSalaryRecord);
      }
      var id := nextId;
      salaries := salaries[id := s];
      nextId := nextId + 1;
      res := Ok(id);
    }

    /**
     * `Salary.create` with the schema's status enumeration applied: a record
     * whose status the enumeration does not admit fails validation and is
     * not stored.
     */
    method CreateChecked(s: Salary) returns (res: Result<nat, SalaryError>)
      requires Valid() && NetBalanced(s)
      modifies this
      ensures Valid()
      ensures res == Err(ValidationFailed) <==> !SchemaStatus(s.status)
      ensures res.Err? ==> salaries == old(salaries)
      ensures SchemaStatus(s.status) ==>
        (res.Err? <==> HasRecord(old(salaries), s.employee, s.month, s.year))
      ensures res.Ok? ==> res.value !in old(salaries) && salaries == old(salaries)[res.value := s]
    {
      if !SchemaStatus(s.status) {
        return Err(ValidationFailed);
      }
      res := Insert(s);
    }

    /**
     * Creates a record from a request made by `actor`. Missing employee,
     * month or year fail validation; an existing (employee, month, year)
     * is a duplicate.
     */
    method CreateSalary(req: CreateRequest, actor: UserId) returns (res: Result<nat, SalaryError>)
      requires Valid()
      modifies this
      ensures Valid() && PaidKept(old(salaries), salaries)
      ensures res == Err(ValidationFailed) <==> req.employee == "" || req.month == "" || req.year.None?
      ensures res == Err(DuplicateSalaryRecord) <==>
        req.employee != "" && req.month != "" && req.year.Some?
        && HasRecord(old(salaries), req.employee, req.month, req.year.value)
      ensures res.Err? ==> salaries == old(salaries)
      ensures res.Ok? ==>
        req.year.Some? && res.value !in old(salaries) && salaries == old(salaries)[res.value := NewSalary(req, actor)]
    {
      if req.employee == "" || req.month == "" || req.year.None? {
        return Err(ValidationFailed);
      }
      var salary := NewSalary(req, actor);
      res := Insert(salary);
    }

    /** Updates the supplied fields of an unpaid record and recomputes its net pay. */
    method UpdateSalary(id: nat, patch: UpdateRequest) returns (res: Result<Salary, SalaryError>)
      requires Valid()
      modifies this
      ensures Valid() && PaidKept(old(salaries), salaries)
      ensures res == Err(NotFound) <==> id !in old(salaries)
      ensures res == Err(CannotModifyPaid) <==> id in old(salaries) && old(salaries)[id].status == Paid
      ensures res.Err? ==> salaries == old(salaries)
      ensures res.Ok? ==>
        && id in old(salaries) && old(salaries)[id].status != Paid
        && res.value == Patched(old(salaries)[id], patch)
        && salaries == old(salaries)[id := res.value]
    {
      if id !in salaries {
        return Err(NotFound);
      }
      var salary := salaries[id];
      if salary.status == Paid {
        return Err(CannotModifyPaid);
      }
      salary := ApplyPatch(salary, patch);
      ReplaceKeepsKeysUnique(salaries, id, salary);
      salaries := salaries[id := salary];
      res := Ok(salary);
    }

    /**
     * Pays an unpaid record into `account` (the resolved payment account,
     * `None` when none was found) on `paidDate`, and returns the ledger and
     * audit-log entries of the payment. `paidBy` is `""` when not supplied;
     * neither the salary nor the ledger schema stores it, so it reaches only
     * the audit log.
     */
    method PaySalary(id: nat, account: Option<string>, transactionId: Option<string>, paidBy: string,
                     paidDate: string, actor: UserId)
      returns (res: Result<Payment, SalaryError>)
      requires Valid()
      modifies this
      ensures Valid() && PaidKept(old(salaries), salaries)
      ensures res == Err(NotFound) <==> id !in old(salaries)
      ensures res == Err(AlreadyPaid) <==> id in old(salaries) && old(salaries)[id].status == Paid
      ensures res == Err(PaymentAccountNotFound) <==>
        id in old(salaries) && old(salaries)[id].status != Paid && account.None?
      ensures res.Err? ==> salaries == old(salaries)
      ensures res.Ok? ==>
        && id in old(salaries) && old(salaries)[id].status != Paid && account.Some?
        && salaries == old(salaries)[id := old(salaries)[id].(status := Paid, paymentAccount := account,
                                                              transactionId := transactionId,
                                                              paidDate := Some(paidDate))]
        && res.value.transaction == Transaction(old(salaries)[id].netSalary, account.value, transactionId, id, actor)
        && res.value.log == PaymentLog(id, transactionId, PayerName(paidBy), actor)
    {
      if id !in salaries {
        return Err(NotFound);
      }
      var salary := salaries[id];
      if salary.status == Paid {
        return Err(AlreadyPaid);
      }
      if account.None? {
        return Err(PaymentAccountNotFound);
      }
      salary := salary.(status := Paid);
      salary := salary.(paymentAccount := account);
      salary := salary.(transactionId := transactionId);
      salary := salary.(paidDate := Some(paidDate));
      ReplaceKeepsKeysUnique(salaries, id, salary);
      salaries := salaries[id := salary];
      var transaction := Transaction(salary.netSalary, account.value, transactionId, id, actor);
      res := Ok(Payment(transaction, PaymentLog(id, transactionId, PayerName(paidBy), actor)));
    }

    /** Deletes an unpaid record and returns it. */
    method DeleteSalary(id: nat) returns (res: Result<Salary, SalaryError>)
      requires Valid()
      modifies this
      ensures Valid() && PaidKept(old(salaries), salaries)
      ensures res == Err(NotFound) <==> id !in old(salaries)
      ensures res == Err(CannotDeletePaid) <==> id in old(salaries) && old(salaries)[id].status == Paid
      ensures res.Err? ==> salaries == old(salaries)
      ensures res.Ok? ==>
        id in old(salaries) && res.value == old(salaries)[id] && res.value.status != Paid
        && salaries == old(salaries) - {id}
    {
      if id !in salaries {
        return Err(NotFound);
      }
      var salary := salaries[id];
      if salary.status == Paid {
        return Err(CannotDeletePaid);
      }
      salaries := salaries - {id};
      res := Ok(salary);
    }
  }

  // ---------------------------------------------------------------------
  // Totals

  /** Sum of net pay over all records. */
  function TotalNet(records: seq<Salary>): (t: int)
    ensures (forall i :: 0 <= i < |records| ==> records[i].netSalary >= 0) ==> t >= 0
  {
    if records == [] then 0 else records[0].netSalary + TotalNet(records[1..])
  }

  /** Net pay summed over the records with status `st`. */
  function SumNet(records: seq<Salary>, st: SalaryStatus): (r: int)
    ensures (forall i :: 0 <= i < |records| ==> records[i].netSalary >= 0) ==> 0 <= r <= TotalNet(records)
  {
    if records == [] then 0
    else (if records[0].status == st then records[0].netSalary else 0) + SumNet(records[1..], st)
  }

  datatype Totals = Totals(totalPaid: int, totalPending: int)

  /** The totals of the salary listing: Paid and `'Pending'` records. */
  function ListingTotals(records: seq<Salary>): (t: Totals)
    ensures t.totalPaid + t.totalPending == TotalNet(records) - SumNet(records, Unpaid)
  {
    NetByStatus(records);
    Totals(SumNet(records, Paid), SumNet(records, Pending))
  }

  datatype OverallStats = OverallStats(totalPaid: int, totalPending: int, recordCount: nat)

  /** The per-employee overview: Paid and `'Unpaid'` records, and the record count. */
  function EmployeeOverall(records: seq<Salary>): (o: OverallStats)
    ensures o.totalPaid + o.totalPending == TotalNet(records) - SumNet(records, Pending)
    ensures o.recordCount == |records|
  {
    NetByStatus(records);
    OverallStats(SumNet(records, Paid), SumNet(records, Unpaid), |records|)
  }

  /** A per-status net sum splits over any division of the records. */
  lemma {:induction false} SumNetAppend(a: seq<Salary>, b: seq<Salary>, st: SalaryStatus)
    ensures SumNet(a + b, st) == SumNet(a, st) + SumNet(b, st)
  {
    if a == [] {
      assert a + b == b;
    } else {
      var ab := a + b;
      assert ab[0] == a[0] && ab[1..] == a[1..] + b;
      SumNetAppend(a[1..], b, st);
    }
  }

  /** One record's part in the listing totals: its net goes to the total of its status, Paid or Pending, and nowhere else. */
  lemma ListingTotalsOfOne(s: Salary)
    ensures ListingTotals([s]) == Totals(if s.status == Paid then s.netSalary else 0,
                                         if s.status == Pending then s.netSalary else 0)
  {
    assert [s][1..] == [];
  }

  /** The listing totals split over any division of the records. */
  lemma ListingTotalsSplit(a: seq<Salary>, b: seq<Salary>)
    ensures ListingTotals(a + b) == Totals(ListingTotals(a).totalPaid + ListingTotals(b).totalPaid,
                                           ListingTotals(a).totalPending + ListingTotals(b).totalPending)
  {
    SumNetAppend(a, b, Paid);
    SumNetAppend(a, b, Pending);
  }

  /** One record's part in the employee overview: its net goes to the Paid or the Unpaid total by its status, and it is one record. */
  lemma EmployeeOverallOfOne(s: Salary)
    ensures EmployeeOverall([s]) == OverallStats(if s.status == Paid then s.netSalary else 0,
                                                 if s.status == Unpaid then s.netSalary else 0, 1)
  {
    assert [s][1..] == [];
  }

  /** The employee overview splits over any division of the records. */
  lemma EmployeeOverallSplit(a: seq<Salary>, b: seq<Salary>)
    ensures EmployeeOverall(a + b) == OverallStats(
      EmployeeOverall(a).totalPaid + EmployeeOverall(b).totalPaid,
      EmployeeOverall(a).totalPending + EmployeeOverall(b).totalPending,
      EmployeeOverall(a).recordCount + EmployeeOverall(b).recordCount)
  {
    SumNetAppend(a, b, Paid);
    SumNetAppend(a, b, Unpaid);
  }

  /** Every record has one of the three statuses, so the per-status sums add up to the total. */
  lemma {:induction false} NetByStatus(records: seq<Salary>)
    ensures SumNet(records, Pending) + SumNet(records, Unpaid) + SumNet(records, Paid) == TotalNet(records)
  {
    if records != [] {
      NetByStatus(records[1..]);
    }
  }

  /** Replacing one record changes each per-status sum by what leaves and what enters that status. */
  lemma {:induction false} SumNetReplace(records: seq<Salary>, i: nat, s: Salary, st: SalaryStatus)
    requires i < |records|
    ensures SumNet(records[i := s], st)
         == SumNet(records, st) - (if records[i].status == st then records[i].netSalary else 0)
            + (if s.status == st then s.netSalary else 0)
  {
    if i == 0 {
      assert records[i := s][1..] == records[1..];
    } else {
      SumNetReplace(records[1..], i - 1, s, st);
      assert records[i := s][1..] == records[1..][i - 1 := s];
    }
  }

  /**
   * Paying record `i` moves its net pay from the total of its old status to
   * the Paid total, and leaves the total of the third status alone.
   */
  lemma PayingMovesNet(records: seq<Salary>, i: nat, paid: Salary)
    requires i < |records| && records[i].status != Paid
    requires paid.status == Paid && paid.netSalary == records[i].netSalary
    ensures SumNet(records[i := paid], Paid) == SumNet(records, Paid) + records[i].netSalary
    ensures SumNet(records[i := paid], records[i].status) == SumNet(records, records[i].status) - records[i].netSalary
    ensures forall st :: st != Paid && st != records[i].status ==> SumNet(records[i := paid], st) == SumNet(records, st)
  {
    SumNetReplace(records, i, paid, Paid);
    SumNetReplace(records, i, paid, records[i].status);
    forall st | st != Paid && st != records[i].status
      ensures SumNet(records[i := paid], st) == SumNet(records, st)
    {
      SumNetReplace(records, i, paid, st);
    }
  }

  /**
   * In the listing, paying a Pending record moves its net pay from the
   * pending total to the paid total.
   */
  lemma PayingPendingMovesListingTotals(records: seq<Salary>, i: nat, paid: Salary)
    requires i < |records| && records[i].status == Pending
    requires paid.status == Paid && paid.netSalary == records[i].netSalary
    ensures ListingTotals(records[i := paid]).totalPaid == ListingTotals(records).totalPaid + records[i].netSalary
    ensures ListingTotals(records[i := paid]).totalPending == ListingTotals(records).totalPending - records[i].netSalary
  {
    PayingMovesNet(records, i, paid);
  }
}
