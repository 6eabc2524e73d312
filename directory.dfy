/**
 * The employee directory as the core reads it: an identifier, a role, an
 * employment status and an optional base monthly salary.
 */
module Directory {
  import opened Wrappers

  type UserId = string

  datatype Role = Admin | EmployeeRole

  datatype EmploymentStatus = Active | OnLeave | Terminated | Resigned

  datatype Employee = Employee(id: UserId, role: Role, status: EmploymentStatus, salary: Option<int>)

  /** The users matched by the query `{ role: 'employee', status: 'Active' }`, in directory order. */
  function ActiveEmployees(users: seq<Employee>): (r: seq<Employee>)
    ensures |r| <= |users|
    ensures forall e :: e in r <==> e in users && e.role == EmployeeRole && e.status == Active
  {
    if users == [] then []
    else
      var rest := ActiveEmployees(users[1..]);
      assert users == [users[0]] + users[1..];
      if users[0].role == EmployeeRole && users[0].status == Active then [users[0]] + rest else rest
  }
}
