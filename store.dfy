/**
  * The service's state and its four handlers. The employee list, the leave list
  * and their two id counters live in one store object; each handler either
  * answers with an error and changes nothing, or makes its one change.
  */
module Handlers {
  import opened Domain
  import opened Ledger
  import opened Invariant

  /**
    * What registering answers. Checks, first failure wins: every field present,
    * email unused, joining date parseable. On success the record carries the
    * next id and the full allowance.
    */
  function RegisterResult(
    employees: seq<Employee>, nextEmployeeId: int,
    name: Option<string>, email: Option<string>, department: Option<string>, joiningDate: DateArg)
    : (r: Result<Employee>)
    ensures r.Ok? <==>
      TruthyText(name) && TruthyText(email) && TruthyText(department) && joiningDate.Parsed?
      && !EmailTaken(employees, email.value)
    ensures r.Ok? ==>
      && r.value.id == nextEmployeeId && r.value.leaveBalance == AnnualLeaveBalance
      && name == Some(r.value.name) && email == Some(r.value.email) && department == Some(r.value.department)
      && joiningDate == Parsed(r.value.joiningDate)
    ensures r == Err(MissingEmployeeFields) <==>
      !(TruthyText(name) && TruthyText(email) && TruthyText(department) && Given(joiningDate))
    ensures r == Err(DuplicateEmail) <==>
      TruthyText(name) && TruthyText(email) && TruthyText(department) && Given(joiningDate)
      && EmailTaken(employees, email.value)
    ensures r == Err(InvalidJoiningDate) <==>
      TruthyText(name) && TruthyText(email) && TruthyText(department) && Given(joiningDate)
      && !EmailTaken(employees, email.value) && joiningDate.Unparseable?
  {
    if !TruthyText(name) || !TruthyText(email) || !TruthyText(department) || !Given(joiningDate) then
      Err(MissingEmployeeFields)
    else if EmailTaken(employees, email.value) then Err(DuplicateEmail)
    else if joiningDate.Unparseable? then Err(InvalidJoiningDate)
    else Ok(Employee(nextEmployeeId, name.value, email.value, department.value, joiningDate.ms, AnnualLeaveBalance))
  }

  /**
    * What applying for leave answers. Checks, first failure wins: fields
    * present, employee known, dates parseable, end not before start, start not
    * before joining, no overlap with the employee's live requests, days within
    * the current balance. On success: a Pending request with the next id.
    */
  function ApplyResult(
    employees: seq<Employee>, leaves: seq<LeaveRequest>, nextLeaveId: int,
    employeeId: Option<int>, startDate: DateArg, endDate: DateArg)
    : (r: Result<LeaveRequest>)
    ensures r.Ok? ==>
      && r.value.id == nextLeaveId && r.value.status == Pending
      && employeeId == Some(r.value.employeeId)
      && startDate == Parsed(r.value.startDate) && endDate == Parsed(r.value.endDate)
    ensures r.Ok? ==> BelongsToEmployee(employees, r.value)
    ensures r.Ok? ==> !IsOverlapping(leaves, r.value.employeeId, r.value.startDate, r.value.endDate)
    ensures r.Ok? ==>
      LeaveBalance(employees, leaves, r.value.employeeId).Some?
      && DaysBetween(r.value.startDate, r.value.endDate) <= LeaveBalance(employees, leaves, r.value.employeeId).value
    ensures r == Err(MissingLeaveFields) <==> !(TruthyId(employeeId) && Given(startDate) && Given(endDate))
    ensures r == Err(EmployeeNotFound) <==>
      TruthyId(employeeId) && Given(startDate) && Given(endDate)
      && forall i :: 0 <= i < |employees| ==> employees[i].id != employeeId.value
    ensures r == Err(InvalidDate) <==>
      TruthyId(employeeId) && Given(startDate) && Given(endDate) && EmployeeIndex(employees, employeeId.value).Some?
      && (startDate.Unparseable? || endDate.Unparseable?)
    ensures Checkable(employees, employeeId, startDate, endDate) ==>
      var id, start, end := employeeId.value, startDate.ms, endDate.ms;
      var joined := employees[EmployeeIndex(employees, id).value].joiningDate;
      var balance := LeaveBalance(employees, leaves, id).value;
      && (r == Err(EndBeforeStart) <==> end < start)
      && (r == Err(BeforeJoiningDate) <==> start <= end && start < joined)
      && (r == Err(Overlapping) <==> start <= end && joined <= start && IsOverlapping(leaves, id, start, end))
      && (r == Err(ExceedsBalance) <==>
            start <= end && joined <= start && !IsOverlapping(leaves, id, start, end)
            && DaysBetween(start, end) > balance)
      && (r.Ok? <==>
            start <= end && joined <= start && !IsOverlapping(leaves, id, start, end)
            && DaysBetween(start, end) <= balance)
    ensures !Checkable(employees, employeeId, startDate, endDate) ==> r.Err?
  {
    if !TruthyId(employeeId) || !Given(startDate) || !Given(endDate) then Err(MissingLeaveFields)
    else
      var id := employeeId.value;
      match EmployeeIndex(employees, id)
      case None => Err(EmployeeNotFound)
      case Some(k) =>
        if startDate.Unparseable? || endDate.Unparseable? then Err(InvalidDate)
        else
          var start, end := startDate.ms, endDate.ms;
          if end < start then Err(EndBeforeStart)
          else if start < employees[k].joiningDate then Err(BeforeJoiningDate)
          else if IsOverlapping(leaves, id, start, end) then Err(Overlapping)
          else if DaysBetween(start, end) > LeaveBalance(employees, leaves, id).value then Err(ExceedsBalance)
          else Ok(LeaveRequest(nextLeaveId, id, start, end, Pending))
  }

  /**
    * The checks every application passes before its dates are compared: the
    * fields are present, the employee is registered and both dates parse.
    */
  predicate Checkable(employees: seq<Employee>, employeeId: Option<int>, startDate: DateArg, endDate: DateArg) {
    && TruthyId(employeeId) && startDate.Parsed? && endDate.Parsed?
    && EmployeeIndex(employees, employeeId.value).Some?
  }

  /**
    * What deciding on a request answers. Checks, first failure wins: target
    * status valid, request known, request still Pending, and for an approval its
    * days within the employee's balance. On success the reply carries the
    * balance after the decision: reduced by the request's days if Approved,
    * unchanged if Rejected.
    */
  function DecideResult(leaves: seq<LeaveRequest>, leaveId: int, status: string): (r: Result<Decision>)
    ensures r.Ok? ==>
      && LeaveIndex(leaves, leaveId).Some?
      && leaves[LeaveIndex(leaves, leaveId).value].status == Pending
      && r.value.leaveRequestId == leaveId
      && DecisionTarget(status) == Some(r.value.status)
    ensures r.Ok? && r.value.status == Approved ==> r.value.leaveBalanceRemaining >= 0
    ensures r == Err(InvalidStatus) <==> DecisionTarget(status).None?
    ensures r == Err(LeaveNotFound) <==> DecisionTarget(status).Some? && LeaveIndex(leaves, leaveId).None?
    ensures DecisionTarget(status).Some? && LeaveIndex(leaves, leaveId).Some? ==>
      var l := leaves[LeaveIndex(leaves, leaveId).value];
      var approving := DecisionTarget(status) == Some(Approved);
      var fits := DaysBetween(l.startDate, l.endDate) <= AnnualLeaveBalance - UsedDays(leaves, l.employeeId);
      && (r == Err(AlreadyProcessed) <==> l.status != Pending)
      && (r == Err(InsufficientBalanceToApprove) <==> l.status == Pending && approving && !fits)
      && (r.Ok? <==> l.status == Pending && (approving ==> fits))
  {
    match DecisionTarget(status)
    case None => Err(InvalidStatus)
    case Some(target) =>
      match LeaveIndex(leaves, leaveId)
      case None => Err(LeaveNotFound)
      case Some(k) =>
        var l := leaves[k];
        var days := DaysBetween(l.startDate, l.endDate);
        var balance := AnnualLeaveBalance - UsedDays(leaves, l.employeeId);
        if l.status != Pending then Err(AlreadyProcessed)
        else if target == Approved && days > balance then Err(InsufficientBalanceToApprove)
        else Ok(Decision(l.id, target, if target == Approved then balance - days else balance))
  }

  /**
    * The balance a successful decision reports is the balance recomputed from
    * the requests after the status change.
    */
  lemma DecisionReportsRecomputedBalance(leaves: seq<LeaveRequest>, leaveId: int, status: string)
    requires DecideResult(leaves, leaveId, status).Ok?
    ensures
      var d := DecideResult(leaves, leaveId, status).value;
      var k := LeaveIndex(leaves, leaveId).value;
      var owner := leaves[k].employeeId;
      d.leaveBalanceRemaining == AnnualLeaveBalance - UsedDays(leaves[k := leaves[k].(status := d.status)], owner)
  {
    var k := LeaveIndex(leaves, leaveId).value;
    var d := DecideResult(leaves, leaveId, status).value;
    UsedDaysUpdate(leaves, k, leaves[k].(status := d.status), leaves[k].employeeId);
  }

  /**
    * In a consistent store, a successful decision answers with the balance the
    * owner has once the request's status is changed, and that change keeps the
    * store consistent.
    */
  lemma DecisionKeepsWellFormed(
    employees: seq<Employee>, nextEmployeeId: int, leaves: seq<LeaveRequest>, nextLeaveId: int,
    leaveId: int, status: string)
    requires WellFormed(employees, nextEmployeeId, leaves, nextLeaveId)
    requires DecideResult(leaves, leaveId, status).Ok?
    ensures
      var k := LeaveIndex(leaves, leaveId).value;
      var d := DecideResult(leaves, leaveId, status).value;
      var decided := leaves[k := leaves[k].(status := d.status)];
      && WellFormed(employees, nextEmployeeId, decided, nextLeaveId)
      && LeaveBalance(employees, decided, leaves[k].employeeId) == Some(d.leaveBalanceRemaining)
      && 0 <= d.leaveBalanceRemaining <= AnnualLeaveBalance
  {
    var k := LeaveIndex(leaves, leaveId).value;
    var d := DecideResult(leaves, leaveId, status).value;
    DecideKeepsWellFormed(employees, nextEmployeeId, leaves, nextLeaveId, k, d.status);
  }

  /** Registering with an email already on file fails, whatever the other fields say, once all are present. */
  lemma DuplicateEmailRejected(
    employees: seq<Employee>, nextEmployeeId: int,
    name: string, department: string, joiningDate: DateArg, i: nat)
    requires name != "" && department != "" && Given(joiningDate)
    requires i < |employees| && employees[i].email != ""
    ensures RegisterResult(employees, nextEmployeeId, Some(name), Some(employees[i].email), Some(department), joiningDate)
         == Err(DuplicateEmail)
  {
  }

  /** A request starting before the employee joined fails, whatever the balance and the other requests. */
  lemma ApplyBeforeJoiningFails(
    employees: seq<Employee>, leaves: seq<LeaveRequest>, nextLeaveId: int, k: nat, start: int, end: int)
    requires k < |employees| && employees[k].id != 0 && EmployeeIndex(employees, employees[k].id) == Some(k)
    requires start <= end && start < employees[k].joiningDate
    ensures ApplyResult(employees, leaves, nextLeaveId, Some(employees[k].id), Parsed(start), Parsed(end))
         == Err(BeforeJoiningDate)
  {
  }

  /** A request that is no longer Pending cannot be decided again, whatever target status is asked for. */
  lemma DecisionIsFinal(leaves: seq<LeaveRequest>, leaveId: int, status: string)
    requires LeaveIndex(leaves, leaveId).Some? && leaves[LeaveIndex(leaves, leaveId).value].status != Pending
    ensures DecideResult(leaves, leaveId, status).Err?
    ensures DecisionTarget(status).Some? ==> DecideResult(leaves, leaveId, status) == Err(AlreadyProcessed)
  {
  }

  class LeaveStore {
    var employees: seq<Employee>
    var employeeIdCounter: int
    var leaves: seq<LeaveRequest>
    var leaveIdCounter: int

    ghost predicate Valid()
      reads this
    {
      WellFormed(employees, employeeIdCounter, leaves, leaveIdCounter)
    }

    /** Process start: no employees, no requests, both counters at 1. */
    constructor ()
      ensures Valid()
      ensures employees == [] && employeeIdCounter == 1
      ensures leaves == [] && leaveIdCounter == 1
    {
      employees := [];
      employeeIdCounter := 1;
      leaves := [];
      leaveIdCounter := 1;
    }

    /**
      * Register an employee (the employee-creation handler): on success the new
      * record is appended and the id counter moves on; on failure nothing changes.
      */
    method AddEmployee(name: Option<string>, email: Option<string>, department: Option<string>, joiningDate: DateArg)
      returns (r: Result<Employee>)
      requires Valid()
      modifies this
      ensures Valid()
      ensures r == RegisterResult(old(employees), old(employeeIdCounter), name, email, department, joiningDate)
      ensures employees == if r.Ok? then old(employees) + [r.value] else old(employees)
      ensures employeeIdCounter == if r.Ok? then old(employeeIdCounter) + 1 else old(employeeIdCounter)
      ensures leaves == old(leaves) && leaveIdCounter == old(leaveIdCounter)
      ensures r.Ok? ==> forall i :: 0 <= i < |old(employees)| ==> old(employees)[i].id < r.value.id
    {
      if !TruthyText(name) || !TruthyText(email) || !TruthyText(department) || !Given(joiningDate) {
        return Err(MissingEmployeeFields);
      }
      if EmailTaken(employees, email.value) {
        return Err(DuplicateEmail);
      }
      if joiningDate.Unparseable? {
        return Err(InvalidJoiningDate);
      }
      var newEmployee := Employee(employeeIdCounter, name.value, email.value, department.value,
                                  joiningDate.ms, AnnualLeaveBalance);
      RegisterKeepsWellFormed(employees, employeeIdCounter, leaves, leaveIdCounter, newEmployee);
      employeeIdCounter := employeeIdCounter + 1;
      employees := employees + [newEmployee];
      r := Ok(newEmployee);
    }

    /**
      * Apply for leave (the leave-application handler): on success the new
      * Pending request is appended and the leave id counter moves on; on failure
      * nothing changes. Existing requests are never touched.
      */
    method ApplyLeave(employeeId: Option<int>, startDate: DateArg, endDate: DateArg)
      returns (r: Result<LeaveRequest>)
      requires Valid()
      modifies this
      ensures Valid()
      ensures r == ApplyResult(old(employees), old(leaves), old(leaveIdCounter), employeeId, startDate, endDate)
      ensures leaves == if r.Ok? then old(leaves) + [r.value] else old(leaves)
      ensures leaveIdCounter == if r.Ok? then old(leaveIdCounter) + 1 else old(leaveIdCounter)
      ensures employees == old(employees) && employeeIdCounter == old(employeeIdCounter)
      ensures r.Ok? ==> forall i :: 0 <= i < |old(leaves)| ==> old(leaves)[i].id < r.value.id
    {
      if !TruthyId(employeeId) || !Given(startDate) || !Given(endDate) {
        return Err(MissingLeaveFields);
      }
      var id := employeeId.value;
      var k := EmployeeIndex(employees, id);
      if k.None? {
        return Err(EmployeeNotFound);
      }
      var employee := employees[k.value];
      if startDate.Unparseable? || endDate.Unparseable? {
        return Err(InvalidDate);
      }
      var start, end := startDate.ms, endDate.ms;
      if end < start {
        return Err(EndBeforeStart);
      }
      if start < employee.joiningDate {
        return Err(BeforeJoiningDate);
      }
      if IsOverlapping(leaves, id, start, end) {
        return Err(Overlapping);
      }
      var leaveDays := DaysBetween(start, end);
      var currentBalance := LeaveBalance(employees, leaves, id);
      if leaveDays > currentBalance.value {
        return Err(ExceedsBalance);
      }
      var newLeave := LeaveRequest(leaveIdCounter, id, start, end, Pending);
      Record(newLeave);
      r := Ok(newLeave);
    }

    /**
      * Store a request that passed the application checks: it takes the next
      * id, the counter moves on and the request is appended to the list.
      */
    method Record(l: LeaveRequest)
      requires Valid()
      requires l.id == leaveIdCounter && l.status == Pending && BelongsToEmployee(employees, l)
      requires !IsOverlapping(leaves, l.employeeId, l.startDate, l.endDate)
      modifies this
      ensures Valid()
      ensures leaves == old(leaves) + [l] && leaveIdCounter == old(leaveIdCounter) + 1
      ensures employees == old(employees) && employeeIdCounter == old(employeeIdCounter)
    {
      var grown, next := leaves + [l], leaveIdCounter + 1;
      ApplyKeepsWellFormed(employees, employeeIdCounter, leaves, leaveIdCounter, l);
      assert WellFormed(employees, employeeIdCounter, grown, next);
      leaveIdCounter := next;
      leaves := grown;
    }

    /**
      * Approve or reject a request (the status-update handler): on success only
      * that request's status changes, in place, and the reply carries the
      * balance recomputed afterwards; on failure nothing changes.
      */
    method UpdateLeaveStatus(leaveId: int, status: string) returns (r: Result<Decision>)
      requires Valid()
      modifies this
      ensures Valid()
      ensures r == DecideResult(old(leaves), leaveId, status)
      ensures leaves == if r.Err? then old(leaves)
                        else var k := LeaveIndex(old(leaves), leaveId).value;
                             old(leaves)[k := old(leaves)[k].(status := r.value.status)]
      ensures employees == old(employees) && employeeIdCounter == old(employeeIdCounter)
      ensures leaveIdCounter == old(leaveIdCounter)
      ensures r.Ok? ==> 0 <= r.value.leaveBalanceRemaining <= AnnualLeaveBalance
    {
      var target := DecisionTarget(status);
      if target.None? {
        return Err(InvalidStatus);
      }
      var k := LeaveIndex(leaves, leaveId);
      if k.None? {
        return Err(LeaveNotFound);
      }
      var leave := leaves[k.value];
      if leave.status != Pending {
        return Err(AlreadyProcessed);
      }
      RequesterBalanceWithinAllowance(employees, employeeIdCounter, leaves, leaveIdCounter, k.value);
      if target.value == Approved {
        var currentBalance := LeaveBalance(employees, leaves, leave.employeeId);
        var leaveDays := DaysBetween(leave.startDate, leave.endDate);
        if leaveDays > currentBalance.value {
          return Err(InsufficientBalanceToApprove);
        }
      }
      DecisionKeepsWellFormed(employees, employeeIdCounter, leaves, leaveIdCounter, leaveId, status);
      leaves := leaves[k.value := leave.(status := target.value)];
      var updatedBalance := LeaveBalance(employees, leaves, leave.employeeId);
      r := Ok(Decision(leave.id, target.value, updatedBalance.value));
    }

    /** Read an employee's balance: NotFound for an unknown id, else the derived balance. */
    method GetBalance(employeeId: int) returns (r: Result<BalanceReply>)
      requires Valid()
      ensures r.Err? <==> forall i :: 0 <= i < |employees| ==> employees[i].id != employeeId
      ensures r.Err? ==> r.error == EmployeeNotFound
      ensures r.Ok? ==> r.value.employeeId == employeeId
      ensures r.Ok? ==> r.value.leaveBalance == AnnualLeaveBalance - UsedDays(leaves, employeeId)
      ensures r.Ok? ==> 0 <= r.value.leaveBalance <= AnnualLeaveBalance
    {
      var k := EmployeeIndex(employees, employeeId);
      if k.None? {
        return Err(EmployeeNotFound);
      }
      BalanceWithinAllowance(employees, employeeIdCounter, leaves, leaveIdCounter, k.value);
      var balance := LeaveBalance(employees, leaves, employeeId);
      r := Ok(BalanceReply(employeeId, balance.value));
    }
  }
}
