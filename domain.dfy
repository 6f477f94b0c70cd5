/**
  * Records, statuses, request arguments and error replies of the leave-management
  * service. Dates are the millisecond timestamps a parsed JavaScript `Date` holds.
  */
module Domain {

  datatype Option<+T> = None | Some(value: T)

  /** What a handler answers: the JSON payload, or the error response it sends. */
  datatype Result<+T> = Ok(value: T) | Err(error: Error)

  /** One constructor per distinct error response of the handlers. */
  datatype Error =
    | MissingEmployeeFields
    | DuplicateEmail
    | InvalidJoiningDate
    | MissingLeaveFields
    | EmployeeNotFound
    | InvalidDate
    | EndBeforeStart
    | BeforeJoiningDate
    | Overlapping
    | ExceedsBalance
    | InvalidStatus
    | LeaveNotFound
    | AlreadyProcessed
    | InsufficientBalanceToApprove

  /** The HTTP status each error is sent with: only a missing employee or leave is a 404. */
  function StatusCode(e: Error): (code: int)
    ensures code == 404 <==> e.EmployeeNotFound? || e.LeaveNotFound?
    ensures code != 404 ==> code == 400
  {
    match e
    case EmployeeNotFound => 404
    case LeaveNotFound => 404
    case _ => 400
  }

  /** The fixed yearly allowance every employee starts with. */
  const AnnualLeaveBalance: int := 20

  /** Milliseconds in one day. */
  const MsPerDay: int := 24 * 60 * 60 * 1000

  datatype Status = Pending | Approved | Rejected

  /**
    * A date field of a request body: absent or falsy, present but not parseable
    * as a date (the `Date` is NaN), or parsed to a millisecond timestamp.
    */
  datatype DateArg = Absent | Unparseable | Parsed(ms: int)

  /** `leaveBalance` is set once at registration and never updated afterwards. */
  datatype Employee = Employee(
    id: int,
    name: string,
    email: string,
    department: string,
    joiningDate: int,
    leaveBalance: int)

  datatype LeaveRequest = LeaveRequest(
    id: int,
    employeeId: int,
    startDate: int,
    endDate: int,
    status: Status)

  /** Payload of a successful decision. */
  datatype Decision = Decision(leaveRequestId: int, status: Status, leaveBalanceRemaining: int)

  /** Payload of a successful balance read. */
  datatype BalanceReply = BalanceReply(employeeId: int, leaveBalance: int)

  /**
    * JavaScript truthiness of an optional text field: the falsy values are a
    * missing field and the empty string.
    */
  function TruthyText(s: Option<string>): (truthy: bool)
    ensures !truthy <==> s == None || s == Some("")
  {
    s.Some? && s.value != ""
  }

  /** JavaScript truthiness of an optional number: the falsy values are a missing field and zero. */
  function TruthyId(n: Option<int>): (truthy: bool)
    ensures !truthy <==> n == None || n == Some(0)
  {
    n.Some? && n.value != 0
  }

  /**
    * A date field passes the presence check unless it is absent or falsy; a
    * string that does not parse as a date is still present.
    */
  function Given(d: DateArg): (present: bool)
    ensures !present <==> d == Absent
  {
    !d.Absent?
  }

  /** The target status of a decision: exactly "Approved" or "Rejected", nothing else. */
  function DecisionTarget(status: string): (r: Option<Status>)
    ensures r.Some? <==> status == "Approved" || status == "Rejected"
    ensures r == Some(Approved) <==> status == "Approved"
    ensures r.Some? ==> r.value != Pending
  {
    if status == "Approved" then Some(Approved)
    else if status == "Rejected" then Some(Rejected)
    else None
  }
}
