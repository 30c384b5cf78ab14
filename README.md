# Issue-request lifecycle of the library backend, in Dafny

This project models the issue-request engine of a library-management
backend written in JavaScript (Express and Mongoose). Students ask to borrow
books. Administrators approve or reject those requests. Approving a request
creates a loan (an "issued book" record) and takes one copy off the book's
available `quantity`. Cancelling a loan puts the copy back and marks the
request Returned. There are four stores: books, students, issue requests and
loans.

Layout:

- `records.dfy` (module `Records`): the stored records `Book`, `Student`,
  `IssueRequest` (with its snapshot of student name and branch and of book
  title and author) and `Loan`; the request `Status`; a handler's `Outcome`;
  the stores as one value `Db`; and the admin guard `IsAdmin`.
- `lifecycle.dfy` (module `Lifecycle`): each route handler as a function
  from the stores before a call to a `Step`, which is the outcome plus the
  stores after the call. Each function's contract says which guard gives
  which outcome, that a refused call changes nothing, and what a successful
  call writes.
- `counting.dfy` (module `Counting`): counting the entries of a map that
  satisfy a condition, and how that count moves when one entry is inserted,
  replaced or deleted.
- `invariants.dfy` (module `Invariants`): what the handlers preserve, proved
  handler by handler about the `Lifecycle` functions:
  - no book's quantity is negative;
  - for each (student, book) pair, the number of Approved requests equals
    the number of loans;
  - there is at most one Pending request per (student, book) pair;
  - for each book, quantity plus loans of that book is unchanged by approve
    and cancel;
  - status moves only along the handlers' transitions, and the snapshot
    fields never change.
- `issue_routes.dfy` (module `IssueRoutes`): class `IssueDesk`. It holds the
  four stores as map fields and has one method per route. Each method runs
  the handler's guards in order, then makes its writes one after another.
  Each method's contract equates the outcome and the new fields with the
  `Lifecycle` function applied to the old fields. Everything `Invariants`
  proves about those functions therefore holds of every call.
- `scenario.dfy` (module `Scenario`): a client that uses only the methods'
  contracts. One copy of a book and two students: A is approved; B's
  approval is Unavailable; A's loan is cancelled; B is then approved.

The database's record identifiers are opaque numbers. A handler that creates
a record takes the new identifier as a parameter, with a precondition that
the identifier is not yet used. Dates are opaque values passed in by the
caller. The signed-in user's id and role come from the token. They are
parameters: the student id of a new request, and the role string that the
admin guard compares with `"admin"`.

The model follows the handlers as written, including where they depart
from a strict request lifecycle:

- Reject refuses only Approved and Rejected requests. A Returned request can
  therefore still be rejected (backend/routes/issueRoutes.js:134).
- Delete-all removes only Returned requests. The comment above it says
  "approved or rejected" (backend/routes/issueRoutes.js:147-153).
- Cancel-issue has no admin guard. It needs only a valid token.
- Cancel-issue finds the request by student and book, not by a reference.
  It takes whichever Approved match the store returns. The method chooses
  with `:|`, and the ghost out-parameter `picked` names the choice.
- Cancel-issue marks the request Returned and deletes the loan before it
  looks up the book. If the book is missing, it reports NotFound with those
  two writes kept, although no copy was put back.
- A new request has no role guard. Any signed-in user whose id is a student
  may submit one.
- Approval reports a zero-quantity book as Unavailable. It reports any
  status other than Pending as AlreadyProcessed, which is a 400 response.

## Model

| member | source | states |
|---|---|---|
| Lifecycle.Submit | backend/routes/issueRoutes.js:38-62 | NotFound exactly when the book or the student is missing; DuplicatePending exactly when both exist and the student already has a Pending request for that book; a refusal changes nothing; success adds exactly the new key, keeps every other request, and the new request is Pending with name, branch, title and author copied from the current records; books, students and loans never change |
| Lifecycle.Approve | backend/routes/issueRoutes.js:84-116 | Forbidden exactly for a non-admin role; AlreadyProcessed exactly when the request exists but is not Pending; Unavailable exactly when the book exists with quantity <= 0; Ok exactly when request Pending, book present with quantity > 0 and student present; a refusal changes nothing; success sets that request Approved, adds exactly one loan for the request's student and book, decrements that book by exactly 1 and leaves its quantity >= 0, and changes nothing else |
| Lifecycle.Reject | backend/routes/issueRoutes.js:131-139 | Forbidden for a non-admin role; NotFound exactly for a missing request; AlreadyProcessed exactly when the status is Approved or Rejected; success only from Pending or Returned, setting that request Rejected and nothing else; books and loans never change |
| Lifecycle.Purge | backend/routes/issueRoutes.js:151-157 | Forbidden for a non-admin role; NothingToDelete exactly when no request is Returned; for an admin the remaining requests are exactly those not Returned, each unchanged; books, students and loans never change |
| Lifecycle.Cancel | backend/routes/issueRoutes.js:183-211 | NotFound with no change when the loan is missing or no Approved request matches its student and book; otherwise the picked request becomes Returned and the loan is removed, and the book gains 1 if it exists; Ok exactly when the book exists, otherwise NotFound with those two writes kept |
| Invariants.TransitionsAreForward | backend/models/Issue.js:8 | along the handlers' status moves nothing returns to Pending, Rejected is final, and Returned can only move to Rejected |
| Invariants.SubmitKeepsConsistent | backend/routes/issueRoutes.js:44-62 | submit keeps quantities non-negative, Approved requests equal to loans per (student, book), and at most one Pending request per (student, book) |
| Invariants.SubmitEvolvesLedger | backend/routes/issueRoutes.js:53-62 | after submit every kept request keeps its student, book and snapshot fields and moves its status only by an allowed transition, every new request is Pending, and quantity plus loans is unchanged for every book |
| Invariants.ApproveKeepsConsistent | backend/routes/issueRoutes.js:91-116 | approve keeps quantities non-negative, Approved requests equal to loans per (student, book), and at most one Pending request per pair |
| Invariants.ApproveConservesStock | backend/routes/issueRoutes.js:102-116 | for every book, quantity plus the number of its loans is the same before and after approve |
| Invariants.ApproveEvolvesLedger | backend/routes/issueRoutes.js:102-103 | after approve every kept request keeps its student, book and snapshot fields and moves its status only by an allowed transition, and no new request appears other than as Pending |
| Invariants.ApproveTwiceRefused | backend/routes/issueRoutes.js:87-89 | approving a request that was just approved gives AlreadyProcessed and changes nothing |
| Invariants.RejectKeepsConsistent | backend/routes/issueRoutes.js:134-139 | reject keeps quantities non-negative, Approved requests equal to loans per pair, and at most one Pending per pair |
| Invariants.RejectEvolvesLedger | backend/routes/issueRoutes.js:138-139 | after reject every kept request keeps its student, book and snapshot fields and moves its status only by an allowed transition, and quantity plus loans is unchanged for every book |
| Invariants.RejectTwiceRefused | backend/routes/issueRoutes.js:134-136 | rejecting a request that was just rejected gives AlreadyProcessed and changes nothing |
| Invariants.PurgeKeepsConsistent | backend/routes/issueRoutes.js:151-153 | delete-all keeps quantities non-negative, Approved requests equal to loans per pair, and at most one Pending per pair |
| Invariants.PurgeEvolvesLedger | backend/routes/issueRoutes.js:151-153 | after delete-all every kept request is unchanged up to an allowed status move, no new request appears other than as Pending, and quantity plus loans is unchanged for every book |
| Invariants.PurgeRemovesReturned | backend/routes/issueRoutes.js:151-159 | for an admin, the number of requests before delete-all equals the number after plus the number of Returned requests, which is the deleted count the handler reports |
| Invariants.PurgeIdempotent | backend/routes/issueRoutes.js:151-157 | a second delete-all right after the first reports NothingToDelete and changes nothing |
| Invariants.CancelKeepsConsistent | backend/routes/issueRoutes.js:187-208 | cancel keeps quantities non-negative, Approved requests equal to loans per pair, and at most one Pending per pair, also when the book is missing |
| Invariants.CancelConservesStock | backend/routes/issueRoutes.js:198-208 | for every book, quantity plus the number of its loans is the same before and after cancel |
| Invariants.CancelEvolvesLedger | backend/routes/issueRoutes.js:198-199 | after cancel every kept request keeps its student, book and snapshot fields and moves its status only by an allowed transition, also when the book is missing |
| Invariants.ApproveThenCancel | backend/routes/issueRoutes.js:102-208 | cancelling the loan that an approval just created succeeds, restores books and loans exactly, and leaves the matching request Returned |
| IssueRoutes.IssueDesk.NewRequest | backend/routes/issueRoutes.js:35-68 | outcome and new stores are exactly those Lifecycle.Submit gives for the old stores |
| IssueRoutes.IssueDesk.ApproveRequest | backend/routes/issueRoutes.js:81-124 | outcome and new stores are exactly those Lifecycle.Approve gives for the old stores |
| IssueRoutes.IssueDesk.RejectRequest | backend/routes/issueRoutes.js:128-145 | outcome and new stores are exactly those Lifecycle.Reject gives for the old stores |
| IssueRoutes.IssueDesk.DeleteAll | backend/routes/issueRoutes.js:148-163 | outcome and new stores are exactly those Lifecycle.Purge gives for the old stores; the deleted count is the number of Returned requests for an admin, and 0 for anyone else; Ok implies at least one deletion; the number of requests drops by exactly the deleted count |
| IssueRoutes.IssueDesk.CancelIssue | backend/routes/issueRoutes.js:179-218 | the picked request is an Approved match whenever one exists; outcome and new stores are exactly those Lifecycle.Cancel gives for the old stores and that pick |
| Scenario.FirstLoan | backend/routes/issueRoutes.js:53-116 | from one copy of X, A's request and its approval leave X at quantity 0 with one loan and A's request Approved |
| Scenario.SecondRequest | backend/routes/issueRoutes.js:35-96 | while A holds the only copy, B's request is accepted as Pending, and B's approval is refused as Unavailable for an admin and as Forbidden for anyone else, with no change |
| Scenario.SecondLoan | backend/routes/issueRoutes.js:179-211 | cancelling A's loan and then approving B's request leaves X at quantity 0, A's request Returned, B's request Approved and B's loan the only one |

## Left out

- Token verification (`verifyToken`) wraps a foreign JWT library. The decoded user id and role are parameters instead.
- The response bodies and message texts are left out. Only their outcome kind is modelled, as `Outcome`.
- Database exceptions and their 500 responses are left out. So are malformed identifiers that make a lookup throw. The model's identifiers are always well formed.
- Schema validation failures are among the 500s left out. The request's snapshot strings are required fields (backend/models/Issue.js:4-7), and an empty string fails validation. The book update route runs no validators (backend/routes/bookRoutes.js:57-61), so a book's title can become empty. A request for such a book then fails at save with a 500, while `Lifecycle.Submit` answers Ok.
- Invariants.Consistent holds only for the issue routes. The book update and delete routes can write `quantity` or remove books directly, and the model does not cover them.
- Atomicity and concurrency are left out. The handlers make sequential saves with no transaction, and the model runs each handler as one uninterrupted sequence of writes. A failure or a concurrent request between two writes is not modelled.
- Date arithmetic is left out. Approval's return date of "ten days ago" and the issue date "now" are parameters.
- The `createdAt`/`updatedAt` timestamps of a request are not modelled.
- `quantity` is an integer. A JavaScript Number could also be fractional, and that is left out.
- The catalogue metadata that no handler reads is left out: genre, sub-genre, height and publisher.
- models/Student.js is not part of this model. A student is modelled only by the name and branch the handlers read.
- The read-only routes `/requests` and `/issued-books` are left out. They are plain queries with joins.
- The other route files (books, users, messages, statistics) and the server start-up are left out, because they are plain CRUD or plumbing outside the issue lifecycle.
- IssueRoutes.IssueDesk.CancelIssue: the model lets any Approved match be picked. The store's actual order, which decides the match `findOne` returns, is not modelled.
