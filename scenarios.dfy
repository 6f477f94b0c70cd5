/**
  * A client of the store: one session, in steps, that exercises the documented
  * behaviours through the handlers' contracts alone. Dates are UTC-midnight
  * timestamps, so a range from day a to day b lasts b - a + 1 days.
  *
  * Two Pending requests of 15 and 10 days both fit the allowance when applied
  * for, because only Approved days count; once the first is approved the second
  * no longer fits. Rejecting it frees its dates for a shorter request.
  */
module Scenarios {
  import opened Domain
  import opened Ledger
  import opened Handlers

  const Ada := Employee(1, "Ada", "ada@example.com", "Engineering", 0, AnnualLeaveBalance)
  /** Days 10 to 24: fifteen days. */
  const Long := LeaveRequest(1, 1, 10 * MsPerDay, 24 * MsPerDay, Pending)
  /** Days 30 to 39: ten days. */
  const Short := LeaveRequest(2, 1, 30 * MsPerDay, 39 * MsPerDay, Pending)
  /** Days 30 to 34: five days, inside Short's dates. */
  const Later := LeaveRequest(3, 1, 30 * MsPerDay, 34 * MsPerDay, Pending)

  /** Days used over two requests: what each one charges. */
  lemma UsedDaysOfTwo(a: LeaveRequest, b: LeaveRequest, employeeId: int)
    ensures UsedDays([a, b], employeeId) == Charge(a, employeeId) + Charge(b, employeeId)
  {
    UsedDaysAppend([], a, employeeId);
    UsedDaysAppend([a], b, employeeId);
    assert [] + [a] == [a] && [a] + [b] == [a, b];
  }

  /** Registration assigns id 1 and the full allowance; a second use of the email is refused. */
  method RegisterOnce() returns (store: LeaveStore)
    ensures fresh(store) && store.Valid()
    ensures store.employees == [Ada] && store.employeeIdCounter == 2
    ensures store.leaves == [] && store.leaveIdCounter == 1
  {
    store := new LeaveStore();
    assert TruthyText(Some("Ada")) && TruthyText(Some("ada@example.com")) && TruthyText(Some("Engineering"));
    var ada := store.AddEmployee(Some("Ada"), Some("ada@example.com"), Some("Engineering"), Parsed(0));
    assert ada == Ok(Ada);
    assert EmailTaken(store.employees, "ada@example.com") by {
      assert store.employees[0].email == "ada@example.com";
    }
    assert TruthyText(Some("Ada L")) && TruthyText(Some("Sales"));
    var again := store.AddEmployee(Some("Ada L"), Some("ada@example.com"), Some("Sales"), Parsed(0));
    assert again == Err(DuplicateEmail);
  }

  /** Fifteen days fit the untouched allowance. */
  method ApplyLong(store: LeaveStore)
    requires store.Valid()
    requires store.employees == [Ada] && store.employeeIdCounter == 2
    requires store.leaves == [] && store.leaveIdCounter == 1
    modifies store
    ensures store.Valid()
    ensures store.employees == [Ada] && store.employeeIdCounter == 2
    ensures store.leaves == [Long] && store.leaveIdCounter == 2
  {
    DaysBetweenCalendarDays(10, 24);
    assert EmployeeIndex(store.employees, 1) == Some(0);
    var long := store.ApplyLeave(Some(1), Parsed(10 * MsPerDay), Parsed(24 * MsPerDay));
    assert long == Ok(Long);
  }

  /** Ten more days fit as well, since the fifteen are only Pending. */
  method ApplyShort(store: LeaveStore)
    requires store.Valid()
    requires store.employees == [Ada] && store.employeeIdCounter == 2
    requires store.leaves == [Long] && store.leaveIdCounter == 2
    modifies store
    ensures store.Valid()
    ensures store.employees == [Ada] && store.employeeIdCounter == 2
    ensures store.leaves == [Long, Short] && store.leaveIdCounter == 3
  {
    DaysBetweenCalendarDays(30, 39);
    assert EmployeeIndex(store.employees, 1) == Some(0);
    assert !IsOverlapping(store.leaves, 1, 30 * MsPerDay, 39 * MsPerDay) by {
      assert !Blocks(store.leaves[0], 1, 30 * MsPerDay, 39 * MsPerDay);
    }
    assert UsedDays(store.leaves, 1) == 0 by {
      assert store.leaves[..0] == [];
    }
    var short := store.ApplyLeave(Some(1), Parsed(30 * MsPerDay), Parsed(39 * MsPerDay));
    assert short == Ok(Short);
  }

  /** A request that only touches the last day of an existing one is refused as overlapping. */
  method TouchingRefused(store: LeaveStore)
    requires store.Valid()
    requires store.employees == [Ada] && store.employeeIdCounter == 2
    requires store.leaves == [Long, Short] && store.leaveIdCounter == 3
    modifies store
    ensures store.Valid()
    ensures store.employees == [Ada] && store.employeeIdCounter == 2
    ensures store.leaves == [Long, Short] && store.leaveIdCounter == 3
  {
    assert EmployeeIndex(store.employees, 1) == Some(0);
    assert IsOverlapping(store.leaves, 1, 39 * MsPerDay, 40 * MsPerDay) by {
      assert Blocks(store.leaves[1], 1, 39 * MsPerDay, 40 * MsPerDay);
    }
    var touching := store.ApplyLeave(Some(1), Parsed(39 * MsPerDay), Parsed(40 * MsPerDay));
    assert touching == Err(Overlapping);
  }

  /** Approving the fifteen days leaves five; the ten can then no longer be approved. */
  method ApproveLong(store: LeaveStore)
    requires store.Valid()
    requires store.employees == [Ada] && store.employeeIdCounter == 2
    requires store.leaves == [Long, Short] && store.leaveIdCounter == 3
    modifies store
    ensures store.Valid()
    ensures store.employees == [Ada] && store.employeeIdCounter == 2
    ensures store.leaves == [Long.(status := Approved), Short] && store.leaveIdCounter == 3
  {
    DaysBetweenCalendarDays(10, 24);
    assert LeaveIndex(store.leaves, 1) == Some(0);
    UsedDaysOfTwo(store.leaves[0], store.leaves[1], 1);
    var approved := store.UpdateLeaveStatus(1, "Approved");
    assert approved == Ok(Decision(1, Approved, 5));
  }

  /** The ten days exceed what is left, so approval fails and changes nothing. */
  method ApproveShortFails(store: LeaveStore)
    requires store.Valid()
    requires store.employees == [Ada] && store.employeeIdCounter == 2
    requires store.leaves == [Long.(status := Approved), Short] && store.leaveIdCounter == 3
    modifies store
    ensures store.Valid()
    ensures store.employees == [Ada] && store.employeeIdCounter == 2
    ensures store.leaves == [Long.(status := Approved), Short] && store.leaveIdCounter == 3
  {
    DaysBetweenCalendarDays(10, 24);
    DaysBetweenCalendarDays(30, 39);
    assert LeaveIndex(store.leaves, 2) == Some(1);
    UsedDaysOfTwo(store.leaves[0], store.leaves[1], 1);
    var tooMuch := store.UpdateLeaveStatus(2, "Approved");
    assert tooMuch == Err(InsufficientBalanceToApprove);
  }

  /** Rejecting the ten days keeps the balance; the approved request cannot be decided again. */
  method RejectShort(store: LeaveStore)
    requires store.Valid()
    requires store.employees == [Ada] && store.employeeIdCounter == 2
    requires store.leaves == [Long.(status := Approved), Short] && store.leaveIdCounter == 3
    modifies store
    ensures store.Valid()
    ensures store.employees == [Ada] && store.employeeIdCounter == 2
    ensures store.leaves == [Long.(status := Approved), Short.(status := Rejected)] && store.leaveIdCounter == 3
  {
    DaysBetweenCalendarDays(10, 24);
    assert LeaveIndex(store.leaves, 2) == Some(1);
    UsedDaysOfTwo(store.leaves[0], store.leaves[1], 1);
    var rejected := store.UpdateLeaveStatus(2, "Rejected");
    assert rejected == Ok(Decision(2, Rejected, 5));
    assert LeaveIndex(store.leaves, 1) == Some(0);
    var twice := store.UpdateLeaveStatus(1, "Rejected");
    assert twice == Err(AlreadyProcessed);
  }

  /** Dates of a Rejected request are free again: five of them fit the five days left. */
  method ReuseRejectedDates(store: LeaveStore)
    requires store.Valid()
    requires store.employees == [Ada] && store.employeeIdCounter == 2
    requires store.leaves == [Long.(status := Approved), Short.(status := Rejected)] && store.leaveIdCounter == 3
    modifies store
    ensures store.Valid()
  {
    DaysBetweenCalendarDays(10, 24);
    DaysBetweenCalendarDays(30, 34);
    assert EmployeeIndex(store.employees, 1) == Some(0);
    assert !IsOverlapping(store.leaves, 1, 30 * MsPerDay, 34 * MsPerDay) by {
      assert !Blocks(store.leaves[0], 1, 30 * MsPerDay, 34 * MsPerDay);
      assert !Blocks(store.leaves[1], 1, 30 * MsPerDay, 34 * MsPerDay);
    }
    UsedDaysOfTwo(store.leaves[0], store.leaves[1], 1);
    var later := store.ApplyLeave(Some(1), Parsed(30 * MsPerDay), Parsed(34 * MsPerDay));
    assert later == Ok(Later);
    var balance := store.GetBalance(1);
    assert balance == Ok(BalanceReply(1, 5));
  }

  /** The whole session, from process start. */
  method CompetingPendingRequests() {
    var store := RegisterOnce();
    ApplyLong(store);
    ApplyShort(store);
    TouchingRefused(store);
    ApproveLong(store);
    ApproveShortFails(store);
    RejectShort(store);
    ReuseRejectedDates(store);
  }
}
