# Leave ledger — a Dafny model

This project models the core of an employee leave-management service. The service is a single Express application (`index.js`). It keeps two in-memory lists, employees and leave requests, each with its own id counter. Four handlers act on them:

- **register** adds an employee with the fixed annual allowance of 20 days;
- **apply** records a Pending leave request after an ordered chain of checks;
- **decide** moves a Pending request to Approved or Rejected, in place;
- **balance** reads the derived balance.

The authoritative balance is never stored. It is always the allowance minus the inclusive day counts of the employee's Approved requests.

The model is split by concern:

- `domain.dfy` (module `Domain`): records, statuses, request arguments, one error constructor per distinct error response, and the HTTP code each error is sent with.
- `queries.dfy` (module `Queries`): the `find` and `some` array searches the handlers use.
- `ledger.dfy` (module `Ledger`): the pure helpers. These are the inclusive day count, the lookups by id, the email check, the overlap test and the derived balance, with lemmas about each.
- `invariant.dfy` (module `Invariant`): the store's consistency condition, and lemmas that every successful handler keeps it. The heart of the condition: no employee's Approved days exceed the allowance, so no balance is ever negative.
- `store.dfy` (module `Handlers`): one function per handler saying what it answers, and the class `LeaveStore`. The class holds the two lists and the two counters as fields. It has one method per handler; each method changes the fields step by step, as the handler does.
- `scenarios.dfy` (module `Scenarios`): a client session that drives the store through its method contracts alone. Two Pending requests of 15 and 10 days are both accepted. Approving the first leaves 5 days, so the second can no longer be approved. Rejecting the second frees its dates for a shorter request.

Dates are the integer millisecond timestamps a parsed JavaScript `Date` holds. The day count is `floor((end - start) / msPerDay) + 1`. Dafny's `/` rounds down for a positive divisor, so it models `Math.floor` exactly. `DaysBetweenCalendarDays` shows that for two UTC-midnight timestamps (whole days since the epoch) the count is `last - first + 1`. The model keeps the code's plain millisecond arithmetic. So when two local-time midnights are 23 hours apart across a spring-forward daylight-saving change, the count comes out one day short, as it does in the code.

Two points of the code's behaviour that the model keeps as written:

- A duplicate email, an overlapping request and an already-processed request are all answered with status 400, like every other refusal. Only an unknown employee or an unknown request gets 404 (`StatusCode`).
- The `leaveBalance` field of an employee record is set to 20 at registration and never updated afterwards. The authoritative balance is `LeaveBalance`, derived from the requests on file.

## Model

| member | source | states |
|---|---|---|
| `Domain.StatusCode` | index.js:65-72 | Only a missing employee or a missing leave request is answered with 404; every other refusal is a 400. |
| `Domain.TruthyText` | index.js:19 | A text field fails the presence check exactly when it is missing or the empty string. |
| `Domain.TruthyId` | index.js:65 | An employee id fails the presence check exactly when it is missing or 0. |
| `Domain.Given` | index.js:65 | A date field fails the presence check exactly when it is absent; a string that does not parse still passes it. |
| `Domain.DecisionTarget` | index.js:136-138 | Only the exact strings "Approved" and "Rejected" are accepted as a target status, so a decision can never set a request back to Pending. |
| `Queries.FindIndex` | index.js:140-143 | The search returns the first index whose element passes the test, or reports that no element passes it. |
| `Queries.Any` | index.js:24-26 | The check is true exactly when some element passes the test. |
| `Ledger.DaysBetween` | index.js:47-50 | The count is the floor of the millisecond gap over one day, plus one: `(days-1)*msPerDay <= end-start < days*msPerDay`. It is at least 1 whenever end is not before start. |
| `Ledger.DaysBetweenCalendarDays` | index.js:47-50 | For UTC-midnight timestamps the count is inclusive: `last - first + 1`. So one day gives 1 and a seven-day span gives 7. |
| `Ledger.EmployeeIndex` | index.js:69-72 | The lookup finds a registered employee with the id, or reports none exactly when no employee has that id. |
| `Ledger.LeaveIndex` | index.js:140-143 | The lookup finds a request with the id, or reports none exactly when no request has that id. |
| `Ledger.EmailTaken` | index.js:23-26 | True exactly when some registered employee has that email. |
| `Ledger.Blocks` | index.js:54-58 | Only a live (not Rejected) request of the same employee can block a range. For ordered ranges it blocks exactly when either range starts inside the other. |
| `Ledger.IsOverlapping` | index.js:53-59 | True exactly when some request of the same employee, not Rejected, has `start <= endDate` and `end >= startDate`. |
| `Ledger.OverlapTestIsIntersection` | index.js:57 | For ordered ranges, the endpoint test holds exactly when the two ranges share an instant. Ranges that only touch at an endpoint therefore overlap. |
| `Ledger.RejectingUnblocks` | index.js:56 | After a request is rejected, a range is blocked exactly when some other request blocks it. |
| `Ledger.Charge` | index.js:119-121 | A request charges days only if it is the employee's and Approved. A well-ordered request charges at least one day exactly in that case. |
| `Ledger.UsedDaysIsFilterThenSum` | index.js:119-122 | The days used equal the inclusive day counts of the employee's Approved requests, filtered first and then added up. |
| `Ledger.LeaveBalance` | index.js:115-125 | The balance is absent exactly for an unknown employee. Otherwise it is the allowance minus the days used. |
| `Ledger.ApprovedLeaves` | index.js:119 | Everything the filter keeps is a request of that employee with status Approved. |
| `Ledger.ApprovedLeavesExact` | index.js:119 | A request is kept by the filter exactly when it is on file, belongs to the employee and is Approved. |
| `Ledger.UsedDaysAppend` | index.js:119-122 | Appending a request changes the days used by exactly what that request charges. An appended Pending request charges nothing. |
| `Ledger.UsedDaysUpdate` | index.js:119-122 | Replacing one request changes the days used by the difference between what the old and the new request charge. |
| `Ledger.UsedDaysWithoutRequests` | index.js:119-124 | An employee with no requests on file has used no days. |
| `Ledger.UsedDaysNonNegative` | index.js:120-122 | When every request's range is ordered, the days used are never negative. |
| `Ledger.UsedDaysCountsOnlyApproved` | index.js:119-122 | The days used over all requests equal the days used over the filtered Approved requests. Pending requests, Rejected requests and other employees' requests never move a balance. |
| `Invariant.BalanceWithinAllowance` | index.js:115-125 | In a consistent store, every registered employee's balance exists and lies between 0 and 20. |
| `Invariant.RequesterBalanceWithinAllowance` | index.js:160-165 | In a consistent store, the balance of a request's owner exists and lies between 0 and 20. |
| `Invariant.RegisterKeepsWellFormed` | index.js:33-42 | Appending an employee keeps the store consistent, given the next id and an unused email. The new employee has used 0 days, so their balance reads 20. |
| `Invariant.ApplyKeepsWellFormed` | index.js:103-110 | Appending a Pending request with the next id keeps the store consistent, given that the request is well placed and overlaps nothing live. No employee's used-days total changes, so applying never moves a balance. |
| `Invariant.DecideKeepsWellFormed` | index.js:149-158 | Moving a Pending request to Approved or Rejected keeps the store consistent, given that an approval fits the remaining balance. The allowance cap holds afterwards. |
| `Handlers.RegisterResult` | index.js:16-43 | Each refusal happens exactly when its check is the first to fail, in the code's order: a falsy field, an email already on file, a joining date that does not parse. Registration succeeds exactly when every check passes. A success carries the next id, the given fields and a `leaveBalance` of 20. |
| `Handlers.ApplyResult` | index.js:62-111 | Each refusal happens exactly when its check is the first to fail, in the code's order: missing fields, unknown employee (404), unparseable date, end before start, start before joining, overlap with a live request, more days than the balance. A request that passes every check is accepted. A success is a Pending request with the next id, belonging to a known employee, overlapping nothing live and fitting the current balance. |
| `Handlers.DecideResult` | index.js:132-166 | Each refusal happens exactly when its check is the first to fail: invalid target status, unknown request (404), request no longer Pending, approval exceeding the balance. Rejecting a Pending request always succeeds, and approving one succeeds exactly when its days fit the balance. A success names the request and the target status, and an approval never leaves a negative balance. |
| `Handlers.DecisionReportsRecomputedBalance` | index.js:158-166 | The balance a successful decision reports equals the allowance minus the days used once the request's status has changed. |
| `Handlers.DecisionKeepsWellFormed` | index.js:149-166 | In a consistent store, a successful decision keeps the store consistent. The reported balance is the owner's balance afterwards, and it lies between 0 and 20. |
| `Handlers.DuplicateEmailRejected` | index.js:24-26 | Once all fields are present, registering an email already on file fails with the duplicate-email error. |
| `Handlers.ApplyBeforeJoiningFails` | index.js:85-87 | A request that starts before the joining date fails, whatever the balance and the other requests. |
| `Handlers.DecisionIsFinal` | index.js:145-147 | A request that is no longer Pending cannot be decided again. Any valid target gets the already-processed error. |
| `Handlers.LeaveStore.constructor` | index.js:6-7 | At process start there are no employees and no requests, and both counters are 1. |
| `Handlers.LeaveStore.AddEmployee` | index.js:16-44 | The answer is `RegisterResult` of the old state. On success exactly one record is appended and the counter moves on; on failure nothing changes. The new id exceeds every earlier one. The store stays consistent. |
| `Handlers.LeaveStore.ApplyLeave` | index.js:62-112 | The answer is `ApplyResult` of the old state. On success exactly one Pending request is appended and the counter moves on; on failure nothing changes. Existing requests are untouched, and the new id exceeds every earlier one. |
| `Handlers.LeaveStore.Record` | index.js:103-110 | A checked new request is appended and the leave counter moves on. Nothing else changes, and the store stays consistent. |
| `Handlers.LeaveStore.UpdateLeaveStatus` | index.js:132-167 | The answer is `DecideResult` of the old state. On success only the chosen request's status changes; on failure nothing changes. The reported balance lies between 0 and 20. |
| `Handlers.LeaveStore.GetBalance` | index.js:171-182 | The read returns 404 exactly for an unknown id. Otherwise it returns the allowance minus the days used, which lies between 0 and 20. |

## Left out

- Express plumbing is not modelled: the app object, JSON body parsing, the test route and building the responses. Each handler returns a `Result` whose error constructor stands for the response's status and message.
- Process bootstrap is not modelled: `app.listen`, the `PORT` environment variable and console logging. They are I/O only.
- Date-string parsing is not modelled. A date argument arrives already classified as absent or falsy, unparseable, or parsed to a millisecond timestamp.
- The floating-point rounding of the division in the day count is not modelled. The division is exact integer floor division, which differs from the JavaScript result only for timestamps far outside any realistic range.
- JavaScript typing quirks are not modelled. Text fields are optional strings and ids are integers. A JSON value of another type (say an `employeeId` sent as the string "1") is outside the model.
- Path parameters arrive as integers. A path that `parseInt` reads as NaN matches no record, just like any absent id, so its 404 answer is covered.
- A decision's status argument is a string. A missing status behaves like any string other than the two accepted ones.
- `DecideResult`: when approving, it compares with the derived balance, never with a missing balance. The JavaScript code would coerce a missing balance (a request whose employee is unknown) to 0. That case cannot arise while the store invariant holds, and every request is checked against it.
- Concurrency is not modelled. Handlers run one at a time on a single thread.
