/**
  * The pure queries of the leave ledger: the inclusive day count, lookups by id,
  * the overlap test and the balance derived from approved history.
  */
module Ledger {
  import opened Domain
  import opened Queries

  // ---------------------------------------------------------------------------
  // Day arithmetic

  /**
    * Inclusive number of days from `start` to `end` (millisecond timestamps): the
    * whole days between them, rounded down, plus one. Dafny's `/` rounds down for
    * a positive divisor, as `Math.floor` does.
    */
  function DaysBetween(start: int, end: int): (days: int)
    ensures (days - 1) * MsPerDay <= end - start < days * MsPerDay
    ensures start <= end ==> days >= 1
  {
    (end - start) / MsPerDay + 1
  }

  /** For two calendar days (UTC-midnight timestamps) the count is inclusive of both ends. */
  lemma DaysBetweenCalendarDays(first: int, last: int)
    ensures DaysBetween(first * MsPerDay, last * MsPerDay) == last - first + 1
  {
    var days := DaysBetween(first * MsPerDay, last * MsPerDay);
    assert (days - 1) * MsPerDay <= (last - first) * MsPerDay < days * MsPerDay;
  }

  // ---------------------------------------------------------------------------
  // Lookups

  /** Position of the first employee with this id, as `employees.find` locates it. */
  function EmployeeIndex(employees: seq<Employee>, id: int): (r: Option<nat>)
    ensures r.Some? ==> r.value < |employees| && employees[r.value].id == id
    ensures r.None? <==> forall i :: 0 <= i < |employees| ==> employees[i].id != id
  {
    FindIndex(employees, (e: Employee) => e.id == id)
  }

  /** Position of the first leave request with this id, as `leaves.find` locates it. */
  function LeaveIndex(leaves: seq<LeaveRequest>, id: int): (r: Option<nat>)
    ensures r.Some? ==> r.value < |leaves| && leaves[r.value].id == id
    ensures r.None? <==> forall i :: 0 <= i < |leaves| ==> leaves[i].id != id
  {
    FindIndex(leaves, (l: LeaveRequest) => l.id == id)
  }

  /** Whether some registered employee already uses this email. */
  function EmailTaken(employees: seq<Employee>, email: string): (taken: bool)
    ensures taken <==> exists i :: 0 <= i < |employees| && employees[i].email == email
  {
    Any(employees, (e: Employee) => e.email == email)
  }

  // ---------------------------------------------------------------------------
  // Overlap

  /**
    * Whether leave `l` stands in the way of a request by `employeeId` for
    * [start, end]: same employee, not Rejected, and the inclusive ranges meet.
    */
  predicate Blocks(l: LeaveRequest, employeeId: int, start: int, end: int)
    ensures Blocks(l, employeeId, start, end) ==> l.employeeId == employeeId && l.status != Rejected
    ensures start <= end && l.startDate <= l.endDate && l.employeeId == employeeId && l.status != Rejected ==>
      (Blocks(l, employeeId, start, end) <==> Within(start, l.startDate, l.endDate) || Within(l.startDate, start, end))
  {
    l.employeeId == employeeId && l.status != Rejected && start <= l.endDate && end >= l.startDate
  }

  /** Whether a new request by `employeeId` for [start, end] overlaps an existing one. */
  function IsOverlapping(leaves: seq<LeaveRequest>, employeeId: int, start: int, end: int): (r: bool)
    ensures r <==> exists i :: 0 <= i < |leaves| && Blocks(leaves[i], employeeId, start, end)
  {
    Any(leaves, (l: LeaveRequest) => Blocks(l, employeeId, start, end))
  }

  /** Instant `t` lies in the inclusive range [lo, hi]. */
  predicate Within(t: int, lo: int, hi: int) {
    lo <= t <= hi
  }

  /**
    * The endpoint comparison of the overlap test is interval intersection: two
    * non-empty inclusive ranges pass it exactly when they share an instant, so
    * ranges that only touch at an endpoint overlap.
    */
  lemma OverlapTestIsIntersection(start: int, end: int, otherStart: int, otherEnd: int)
    requires start <= end && otherStart <= otherEnd
    ensures (start <= otherEnd && end >= otherStart)
        <==> exists t :: Within(t, start, end) && Within(t, otherStart, otherEnd)
  {
    if start <= otherEnd && end >= otherStart {
      var t := if start < otherStart then otherStart else start;
      assert Within(t, start, end) && Within(t, otherStart, otherEnd);
    }
  }

  /**
    * Rejecting a request frees its dates: afterwards a range is blocked exactly
    * when some other request blocks it.
    */
  lemma RejectingUnblocks(leaves: seq<LeaveRequest>, k: nat, employeeId: int, start: int, end: int)
    requires k < |leaves|
    ensures IsOverlapping(leaves[k := leaves[k].(status := Rejected)], employeeId, start, end)
        <==> exists i :: 0 <= i < |leaves| && i != k && Blocks(leaves[i], employeeId, start, end)
  {
    var updated := leaves[k := leaves[k].(status := Rejected)];
    if exists i :: 0 <= i < |leaves| && i != k && Blocks(leaves[i], employeeId, start, end) {
      var i :| 0 <= i < |leaves| && i != k && Blocks(leaves[i], employeeId, start, end);
      assert Blocks(updated[i], employeeId, start, end);
    }
  }

  // ---------------------------------------------------------------------------
  // Balance

  /** Days that leave `l` takes from `employeeId`'s allowance: its length if it is theirs and Approved. */
  function Charge(l: LeaveRequest, employeeId: int): (days: int)
    ensures days != 0 ==> l.employeeId == employeeId && l.status == Approved
    ensures l.startDate <= l.endDate ==> (days >= 1 <==> l.employeeId == employeeId && l.status == Approved)
  {
    if l.employeeId == employeeId && l.status == Approved then DaysBetween(l.startDate, l.endDate) else 0
  }

  /**
    * Days used by `employeeId`: the day counts of their Approved leaves, summed
    * from the first request to the last.
    */
  function UsedDays(leaves: seq<LeaveRequest>, employeeId: int): int
    decreases |leaves|
  {
    if leaves == [] then 0
    else UsedDays(leaves[..|leaves| - 1], employeeId) + Charge(leaves[|leaves| - 1], employeeId)
  }

  /** Inclusive day counts of the given requests, summed from the first to the last. */
  function SumDays(leaves: seq<LeaveRequest>): int
    decreases |leaves|
  {
    if leaves == [] then 0
    else SumDays(leaves[..|leaves| - 1]) + DaysBetween(leaves[|leaves| - 1].startDate, leaves[|leaves| - 1].endDate)
  }

  /** The authoritative balance: the allowance minus used days, or None for an unknown employee. */
  function LeaveBalance(employees: seq<Employee>, leaves: seq<LeaveRequest>, employeeId: int): (r: Option<int>)
    ensures r.None? <==> forall i :: 0 <= i < |employees| ==> employees[i].id != employeeId
    ensures r.Some? ==> r.value == AnnualLeaveBalance - UsedDays(leaves, employeeId)
  {
    if EmployeeIndex(employees, employeeId).None? then None
    else Some(AnnualLeaveBalance - UsedDays(leaves, employeeId))
  }

  /** The employee's Approved leaves, in order: the requests the balance is computed from. */
  function ApprovedLeaves(leaves: seq<LeaveRequest>, employeeId: int): (r: seq<LeaveRequest>)
    ensures forall i :: 0 <= i < |r| ==> r[i].employeeId == employeeId && r[i].status == Approved
    decreases |leaves|
  {
    if leaves == [] then []
    else
      var last := leaves[|leaves| - 1];
      ApprovedLeaves(leaves[..|leaves| - 1], employeeId)
        + (if last.employeeId == employeeId && last.status == Approved then [last] else [])
  }

  /**
    * Used days are what the balance is computed from: filter the employee's
    * Approved requests, then add up their inclusive day counts.
    */
  lemma {:induction false} UsedDaysIsFilterThenSum(leaves: seq<LeaveRequest>, employeeId: int)
    ensures UsedDays(leaves, employeeId) == SumDays(ApprovedLeaves(leaves, employeeId))
    decreases |leaves|
  {
    if leaves != [] {
      var n := |leaves|;
      var last := leaves[n - 1];
      var kept := ApprovedLeaves(leaves[..n - 1], employeeId);
      UsedDaysIsFilterThenSum(leaves[..n - 1], employeeId);
      if last.employeeId == employeeId && last.status == Approved {
        assert (kept + [last])[..|kept|] == kept;
      } else {
        assert kept + [] == kept;
      }
    }
  }

  /** A request is kept by the filter exactly when it is on file, is the employee's and is Approved. */
  lemma {:induction false} ApprovedLeavesExact(leaves: seq<LeaveRequest>, employeeId: int)
    ensures forall l :: l in ApprovedLeaves(leaves, employeeId)
              <==> l in leaves && l.employeeId == employeeId && l.status == Approved
    decreases |leaves|
  {
    if leaves != [] {
      var n := |leaves|;
      ApprovedLeavesExact(leaves[..n - 1], employeeId);
      assert leaves == leaves[..n - 1] + [leaves[n - 1]];
    }
  }

  /** Adding a request to the end changes used days by exactly what it charges. */
  lemma UsedDaysAppend(leaves: seq<LeaveRequest>, l: LeaveRequest, employeeId: int)
    ensures UsedDays(leaves + [l], employeeId) == UsedDays(leaves, employeeId) + Charge(l, employeeId)
  {
    assert (leaves + [l])[..|leaves|] == leaves;
  }

  /** Replacing one request changes used days by the difference of what the two charge. */
  lemma {:induction false} UsedDaysUpdate(leaves: seq<LeaveRequest>, k: nat, l: LeaveRequest, employeeId: int)
    requires k < |leaves|
    ensures UsedDays(leaves[k := l], employeeId)
         == UsedDays(leaves, employeeId) - Charge(leaves[k], employeeId) + Charge(l, employeeId)
    decreases |leaves|
  {
    var n := |leaves|;
    var updated := leaves[k := l];
    if k == n - 1 {
      assert updated[..n - 1] == leaves[..n - 1];
    } else {
      UsedDaysUpdate(leaves[..n - 1], k, l, employeeId);
      assert updated[..n - 1] == leaves[..n - 1][k := l];
    }
  }

  /** An employee none of whose requests are on file has used nothing. */
  lemma {:induction false} UsedDaysWithoutRequests(leaves: seq<LeaveRequest>, employeeId: int)
    requires forall i :: 0 <= i < |leaves| ==> leaves[i].employeeId != employeeId
    ensures UsedDays(leaves, employeeId) == 0
    decreases |leaves|
  {
    if leaves != [] {
      UsedDaysWithoutRequests(leaves[..|leaves| - 1], employeeId);
    }
  }

  /** With well-ordered ranges, used days are never negative. */
  lemma {:induction false} UsedDaysNonNegative(leaves: seq<LeaveRequest>, employeeId: int)
    requires forall i :: 0 <= i < |leaves| ==> leaves[i].startDate <= leaves[i].endDate
    ensures UsedDays(leaves, employeeId) >= 0
    decreases |leaves|
  {
    if leaves != [] {
      UsedDaysNonNegative(leaves[..|leaves| - 1], employeeId);
    }
  }

  /**
    * Only the employee's Approved requests matter: used days over all requests
    * equal used days over the filtered ones, so Pending and Rejected requests and
    * other employees' requests never move the balance.
    */
  lemma {:induction false} UsedDaysCountsOnlyApproved(leaves: seq<LeaveRequest>, employeeId: int)
    ensures UsedDays(leaves, employeeId) == UsedDays(ApprovedLeaves(leaves, employeeId), employeeId)
    decreases |leaves|
  {
    if leaves != [] {
      var n := |leaves|;
      var last := leaves[n - 1];
      var prefix := ApprovedLeaves(leaves[..n - 1], employeeId);
      UsedDaysCountsOnlyApproved(leaves[..n - 1], employeeId);
      if last.employeeId == employeeId && last.status == Approved {
        UsedDaysAppend(prefix, last, employeeId);
      } else {
        assert ApprovedLeaves(leaves, employeeId) == prefix + [] == prefix;
      }
    }
  }
}
