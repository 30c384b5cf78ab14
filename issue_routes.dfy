/** The issue routes as an object over the four stores. Each method runs its
    handler's guards in order and then makes the handler's writes one after
    another; its contract ties the outcome and the new stores to the
    corresponding function of module Lifecycle, so that what module
    Invariants proves of those functions holds of every call. */
module IssueRoutes {
  import opened Records
  import opened Lifecycle
  import opened Invariants

  class IssueDesk {
    var books: map<BookId, Book>
    var students: map<StudentId, Student>
    var requests: map<RequestId, IssueRequest>
    var loans: map<LoanId, Loan>

    /** The stores as one value. */
    ghost function State(): Db
      reads this
    {
      Db(books, students, requests, loans)
    }

    /** Stores as the rest of the application left them: books and students
        are created elsewhere. */
    constructor (books: map<BookId, Book>, students: map<StudentId, Student>,
                 requests: map<RequestId, IssueRequest>, loans: map<LoanId, Loan>)
      ensures State() == Db(books, students, requests, loans)
    {
      this.books := books;
      this.students := students;
      this.requests := requests;
      this.loans := loans;
    }

    /** POST /new/request: the signed-in student `studentId` asks for book
        `bookId`; `newId` is the identifier the ledger gives the request. */
    method NewRequest(studentId: StudentId, bookId: BookId, newId: RequestId) returns (outcome: Outcome)
      requires newId !in requests
      modifies this
      ensures Step(outcome, State()) == Submit(old(State()), studentId, bookId, newId)
    {
      if bookId !in books {
        return NotFound;
      }
      var book := books[bookId];
      if studentId !in students {
        return NotFound;
      }
      var student := students[studentId];
      if HasPending(requests, studentId, bookId) {
        return DuplicatePending;
      }
      requests := requests[newId := IssueRequest(
        studentId, bookId, student.name, student.branch, book.title, book.author, Pending)];
      outcome := Ok;
    }

    /** POST /approve: an administrator approves request `requestId`; the loan
        created is `newId`, issued at `issueDate` with return date `returnDate`. */
    method ApproveRequest(role: string, requestId: RequestId, newId: LoanId, issueDate: Date, returnDate: Date)
      returns (outcome: Outcome)
      requires newId !in loans
      modifies this
      ensures Step(outcome, State()) == Approve(old(State()), role, requestId, newId, issueDate, returnDate)
    {
      if !IsAdmin(role) {
        return Forbidden;
      }
      if requestId !in requests {
        return NotFound;
      }
      var request := requests[requestId];
      if request.status != Pending {
        return AlreadyProcessed;
      }
      if request.bookId !in books {
        return NotFound;
      }
      var book := books[request.bookId];
      if book.quantity <= 0 {
        return Unavailable;
      }
      if request.studentId !in students {
        return NotFound;
      }
      requests := requests[requestId := request.(status := Approved)];
      loans := loans[newId := Loan(request.studentId, request.bookId, issueDate, returnDate)];
      books := books[request.bookId := book.(quantity := book.quantity - 1)];
      outcome := Ok;
    }

    /** POST /reject: an administrator rejects request `requestId`. */
    method RejectRequest(role: string, requestId: RequestId) returns (outcome: Outcome)
      modifies this
      ensures Step(outcome, State()) == Reject(old(State()), role, requestId)
    {
      if !IsAdmin(role) {
        return Forbidden;
      }
      if requestId !in requests {
        return NotFound;
      }
      var request := requests[requestId];
      if request.status == Approved || request.status == Rejected {
        return AlreadyProcessed;
      }
      requests := requests[requestId := request.(status := Rejected)];
      outcome := Ok;
    }

    /** POST /delete-all: an administrator deletes every Returned request;
        `deleted` is how many went. */
    method DeleteAll(role: string) returns (outcome: Outcome, deleted: nat)
      modifies this
      ensures Step(outcome, State()) == Purge(old(State()), role)
      ensures deleted == if IsAdmin(role) then |ReturnedIds(old(requests))| else 0
      ensures outcome == Ok ==> deleted > 0
      ensures |old(requests).Keys| == |requests.Keys| + deleted
    {
      if !IsAdmin(role) {
        return Forbidden, 0;
      }
      PurgeRemovesReturned(State(), role);
      var doomed := ReturnedIds(requests);
      requests := requests - doomed;
      deleted := |doomed|;
      if deleted == 0 {
        return NothingToDelete, deleted;
      }
      outcome := Ok;
    }

    /** POST /cancel-issue: cancel loan `issueId`. The Approved request that
        the lookup by student and book settles on is returned in `picked`. */
    method CancelIssue(issueId: LoanId) returns (outcome: Outcome, ghost picked: RequestId)
      modifies this
      ensures issueId in old(loans) && HasMatch(old(requests), old(loans)[issueId]) ==>
        IsMatch(old(requests), old(loans)[issueId], picked)
      ensures Step(outcome, State()) == Cancel(old(State()), issueId, picked)
    {
      picked := 0;
      if issueId !in loans {
        return NotFound, picked;
      }
      var loan := loans[issueId];
      if !HasMatch(requests, loan) {
        return NotFound, picked;
      }
      var rid :| rid in requests && IsMatch(requests, loan, rid);
      picked := rid;
      requests := requests[rid := requests[rid].(status := Returned)];
      loans := loans - {issueId};
      if loan.bookId in books {
        var book := books[loan.bookId];
        books := books[loan.bookId := book.(quantity := book.quantity + 1)];
        outcome := Ok;
      } else {
        outcome := NotFound;
      }
    }
  }
}
