/**
  * The consistency condition of the in-memory store, and that each successful
  * handler keeps it. Its heart is the allowance rule: no employee's Approved
  * requests add up to more than the annual allowance, so no balance is negative.
  */
module Invariant {
  import opened Domain
  import opened Ledger

  /** Employee ids are issued in increasing order from 1, below the counter; emails are unique. */
  ghost predicate EmployeesWellFormed(employees: seq<Employee>, nextEmployeeId: int) {
    && nextEmployeeId >= 1
    && (forall i :: 0 <= i < |employees| ==> 1 <= employees[i].id < nextEmployeeId)
    && (forall i, j :: 0 <= i < j < |employees| ==> employees[i].id < employees[j].id)
    && (forall i, j :: 0 <= i < j < |employees| ==> employees[i].email != employees[j].email)
  }

  /** A request has an ordered range and belongs to a registered employee who had joined by its start. */
  ghost predicate BelongsToEmployee(employees: seq<Employee>, l: LeaveRequest) {
    && l.startDate <= l.endDate
    && exists k :: 0 <= k < |employees| && employees[k].id == l.employeeId && employees[k].joiningDate <= l.startDate
  }

  /** Two requests of one employee, neither Rejected, whose inclusive ranges meet. */
  predicate Clash(a: LeaveRequest, b: LeaveRequest) {
    Blocks(a, b.employeeId, b.startDate, b.endDate) && b.status != Rejected
  }

  /** Leave ids increase from 1 below the counter, every request is well placed, and none clash. */
  ghost predicate LeavesWellFormed(employees: seq<Employee>, leaves: seq<LeaveRequest>, nextLeaveId: int) {
    && nextLeaveId >= 1
    && (forall i :: 0 <= i < |leaves| ==> 1 <= leaves[i].id < nextLeaveId)
    && (forall i, j :: 0 <= i < j < |leaves| ==> leaves[i].id < leaves[j].id)
    && (forall i :: 0 <= i < |leaves| ==> BelongsToEmployee(employees, leaves[i]))
    && (forall i, j :: 0 <= i < j < |leaves| ==> !Clash(leaves[i], leaves[j]))
  }

  /** Every employee's Approved requests fit in the annual allowance. */
  ghost predicate WithinAllowance(employees: seq<Employee>, leaves: seq<LeaveRequest>) {
    forall i :: 0 <= i < |employees| ==> UsedDays(leaves, employees[i].id) <= AnnualLeaveBalance
  }

  ghost predicate WellFormed(employees: seq<Employee>, nextEmployeeId: int, leaves: seq<LeaveRequest>, nextLeaveId: int) {
    && EmployeesWellFormed(employees, nextEmployeeId)
    && LeavesWellFormed(employees, leaves, nextLeaveId)
    && WithinAllowance(employees, leaves)
  }

  /** In a consistent store every registered employee's balance lies between 0 and the allowance. */
  lemma BalanceWithinAllowance(
    employees: seq<Employee>, nextEmployeeId: int, leaves: seq<LeaveRequest>, nextLeaveId: int, i: nat)
    requires WellFormed(employees, nextEmployeeId, leaves, nextLeaveId)
    requires i < |employees|
    ensures LeaveBalance(employees, leaves, employees[i].id).Some?
    ensures 0 <= LeaveBalance(employees, leaves, employees[i].id).value <= AnnualLeaveBalance
  {
    forall j | 0 <= j < |leaves| ensures leaves[j].startDate <= leaves[j].endDate {
      assert BelongsToEmployee(employees, leaves[j]);
    }
    UsedDaysNonNegative(leaves, employees[i].id);
  }

  /** In a consistent store the balance of the employee a request belongs to is known and within the allowance. */
  lemma RequesterBalanceWithinAllowance(
    employees: seq<Employee>, nextEmployeeId: int, leaves: seq<LeaveRequest>, nextLeaveId: int, j: nat)
    requires WellFormed(employees, nextEmployeeId, leaves, nextLeaveId)
    requires j < |leaves|
    ensures LeaveBalance(employees, leaves, leaves[j].employeeId).Some?
    ensures 0 <= LeaveBalance(employees, leaves, leaves[j].employeeId).value <= AnnualLeaveBalance
  {
    assert BelongsToEmployee(employees, leaves[j]);
    var k :| 0 <= k < |employees| && employees[k].id == leaves[j].employeeId
             && employees[k].joiningDate <= leaves[j].startDate;
    BalanceWithinAllowance(employees, nextEmployeeId, leaves, nextLeaveId, k);
  }

  /** Registering an employee with the next id and an unused email keeps the store consistent. */
  lemma RegisterKeepsWellFormed(
    employees: seq<Employee>, nextEmployeeId: int, leaves: seq<LeaveRequest>, nextLeaveId: int, e: Employee)
    requires WellFormed(employees, nextEmployeeId, leaves, nextLeaveId)
    requires e.id == nextEmployeeId && !EmailTaken(employees, e.email)
    ensures WellFormed(employees + [e], nextEmployeeId + 1, leaves, nextLeaveId)
    ensures UsedDays(leaves, e.id) == 0
  {
    var grown := employees + [e];
    forall i | 0 <= i < |leaves|
      ensures BelongsToEmployee(grown, leaves[i]) && leaves[i].employeeId != e.id
    {
      assert BelongsToEmployee(employees, leaves[i]);
      var k :| 0 <= k < |employees| && employees[k].id == leaves[i].employeeId
               && employees[k].joiningDate <= leaves[i].startDate;
      assert grown[k] == employees[k];
    }
    UsedDaysWithoutRequests(leaves, e.id);
    assert WithinAllowance(grown, leaves) by {
      forall i | 0 <= i < |grown| ensures UsedDays(leaves, grown[i].id) <= AnnualLeaveBalance {
        if i < |employees| {
          assert grown[i] == employees[i];
        }
      }
    }
  }

  /**
    * Recording a new Pending request with the next id, for a registered employee
    * who had joined by its start, that overlaps none of their live requests,
    * keeps the store consistent.
    */
  lemma ApplyKeepsWellFormed(
    employees: seq<Employee>, nextEmployeeId: int, leaves: seq<LeaveRequest>, nextLeaveId: int, l: LeaveRequest)
    requires WellFormed(employees, nextEmployeeId, leaves, nextLeaveId)
    requires l.id == nextLeaveId && l.status == Pending && BelongsToEmployee(employees, l)
    requires !IsOverlapping(leaves, l.employeeId, l.startDate, l.endDate)
    ensures WellFormed(employees, nextEmployeeId, leaves + [l], nextLeaveId + 1)
    ensures forall id :: UsedDays(leaves + [l], id) == UsedDays(leaves, id)
  {
    var grown := leaves + [l];
    forall id ensures UsedDays(grown, id) == UsedDays(leaves, id) {
      UsedDaysAppend(leaves, l, id);
    }
    forall i, j | 0 <= i < j < |grown| ensures !Clash(grown[i], grown[j]) {
      if j == |leaves| {
        assert !Blocks(leaves[i], l.employeeId, l.startDate, l.endDate);
      }
    }
  }

  /**
    * Moving a Pending request to a terminal status keeps the store consistent,
    * provided an approval fits in what is left of the employee's allowance. The
    * owner's balance afterwards is the balance before, less the request's days
    * if it was approved.
    */
  lemma DecideKeepsWellFormed(
    employees: seq<Employee>, nextEmployeeId: int, leaves: seq<LeaveRequest>, nextLeaveId: int,
    k: nat, target: Status)
    requires WellFormed(employees, nextEmployeeId, leaves, nextLeaveId)
    requires k < |leaves| && leaves[k].status == Pending && target != Pending
    requires target == Approved ==>
      DaysBetween(leaves[k].startDate, leaves[k].endDate)
        <= AnnualLeaveBalance - UsedDays(leaves, leaves[k].employeeId)
    ensures WellFormed(employees, nextEmployeeId, leaves[k := leaves[k].(status := target)], nextLeaveId)
    ensures
      var owner := leaves[k].employeeId;
      var after := LeaveBalance(employees, leaves[k := leaves[k].(status := target)], owner);
      && after.Some? && 0 <= after.value <= AnnualLeaveBalance
      && after.value == AnnualLeaveBalance - UsedDays(leaves, owner)
                        - (if target == Approved then DaysBetween(leaves[k].startDate, leaves[k].endDate) else 0)
  {
    var l := leaves[k].(status := target);
    var decided := leaves[k := l];
    forall i | 0 <= i < |employees| ensures UsedDays(decided, employees[i].id) <= AnnualLeaveBalance {
      UsedDaysUpdate(leaves, k, l, employees[i].id);
    }
    forall i | 0 <= i < |decided| ensures BelongsToEmployee(employees, decided[i]) {
      assert BelongsToEmployee(employees, leaves[i]);
    }
    forall i, j | 0 <= i < j < |decided| ensures !Clash(decided[i], decided[j]) {
      assert !Clash(leaves[i], leaves[j]);
    }
    assert WellFormed(employees, nextEmployeeId, decided, nextLeaveId);
    UsedDaysUpdate(leaves, k, l, l.employeeId);
    RequesterBalanceWithinAllowance(employees, nextEmployeeId, decided, nextLeaveId, k);
  }
}
