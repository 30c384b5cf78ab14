/** The issue-request handlers as functions from the stores before a call to
    the handler's outcome and the stores after it. Each function follows its
    handler's guards in the handler's order; its contract states which guard
    answers which outcome, that a refused call changes nothing, and what a
    successful call writes. */
module Lifecycle {
  import opened Records

  /** `q` is a Pending request of student `sid` for book `bid`. */
  predicate IsPendingFor(q: IssueRequest, sid: StudentId, bid: BookId)
  {
    q.status == Pending && q.studentId == sid && q.bookId == bid
  }

  /** Some request in the ledger is a Pending request of `sid` for `bid`. */
  predicate HasPending(requests: map<RequestId, IssueRequest>, sid: StudentId, bid: BookId)
  {
    exists k :: k in requests && IsPendingFor(requests[k], sid, bid)
  }

  /** Submit a request for book `bookId` on behalf of the signed-in student
      `studentId`; `newId` is the identifier the ledger gives the new request. */
  function Submit(db: Db, studentId: StudentId, bookId: BookId, newId: RequestId): (r: Step)
    requires newId !in db.requests
    ensures r.outcome in {Ok, NotFound, DuplicatePending}
    ensures r.outcome != Ok ==> r.db == db
    ensures r.outcome == NotFound <==> bookId !in db.books || studentId !in db.students
    ensures r.outcome == DuplicatePending <==>
      bookId in db.books && studentId in db.students && HasPending(db.requests, studentId, bookId)
    ensures r.db.books == db.books && r.db.students == db.students && r.db.loans == db.loans
    ensures r.outcome == Ok ==>
      && r.db.requests.Keys == db.requests.Keys + {newId}
      && (forall k :: k in db.requests ==> r.db.requests[k] == db.requests[k])
      && r.db.requests[newId] == IssueRequest(
           studentId, bookId,
           db.students[studentId].name, db.students[studentId].branch,
           db.books[bookId].title, db.books[bookId].author,
           Pending)
  {
    if bookId !in db.books then Step(NotFound, db)
    else if studentId !in db.students then Step(NotFound, db)
    else if HasPending(db.requests, studentId, bookId) then Step(DuplicatePending, db)
    else
      var book, student := db.books[bookId], db.students[studentId];
      var q := IssueRequest(studentId, bookId, student.name, student.branch, book.title, book.author, Pending);
      Step(Ok, db.(requests := db.requests[newId := q]))
  }

  /** Approve request `requestId`, creating loan `newId` dated `issueDate`
      with return date `returnDate`. */
  function Approve(db: Db, role: string, requestId: RequestId, newId: LoanId, issueDate: Date, returnDate: Date): (r: Step)
    requires newId !in db.loans
    ensures r.outcome in {Ok, Forbidden, NotFound, AlreadyProcessed, Unavailable}
    ensures r.outcome != Ok ==> r.db == db
    ensures r.outcome == Forbidden <==> !IsAdmin(role)
    ensures r.outcome == AlreadyProcessed <==>
      IsAdmin(role) && requestId in db.requests && db.requests[requestId].status != Pending
    ensures r.outcome == Unavailable <==>
      && IsAdmin(role) && requestId in db.requests && db.requests[requestId].status == Pending
      && db.requests[requestId].bookId in db.books
      && db.books[db.requests[requestId].bookId].quantity <= 0
    ensures r.outcome == Ok <==>
      && IsAdmin(role) && requestId in db.requests && db.requests[requestId].status == Pending
      && db.requests[requestId].bookId in db.books
      && db.books[db.requests[requestId].bookId].quantity > 0
      && db.requests[requestId].studentId in db.students
    ensures r.outcome == Ok ==>
      var q := db.requests[requestId];
      var book := db.books[q.bookId];
      && r.db.requests == db.requests[requestId := q.(status := Approved)]
      && r.db.loans == db.loans[newId := Loan(q.studentId, q.bookId, issueDate, returnDate)]
      && r.db.books == db.books[q.bookId := book.(quantity := book.quantity - 1)]
      && r.db.students == db.students
      && r.db.books[q.bookId].quantity >= 0
  {
    if !IsAdmin(role) then Step(Forbidden, db)
    else if requestId !in db.requests then Step(NotFound, db)
    else
      var q := db.requests[requestId];
      if q.status != Pending then Step(AlreadyProcessed, db)
      else if q.bookId !in db.books then Step(NotFound, db)
      else
        var book := db.books[q.bookId];
        if book.quantity <= 0 then Step(Unavailable, db)
        else if q.studentId !in db.students then Step(NotFound, db)
        else
          Step(Ok, db.(
            requests := db.requests[requestId := q.(status := Approved)],
            loans := db.loans[newId := Loan(q.studentId, q.bookId, issueDate, returnDate)],
            books := db.books[q.bookId := book.(quantity := book.quantity - 1)]))
  }

  /** Reject request `requestId`. Only Approved and Rejected requests are
      refused, so a Returned request can still be rejected. */
  function Reject(db: Db, role: string, requestId: RequestId): (r: Step)
    ensures r.outcome in {Ok, Forbidden, NotFound, AlreadyProcessed}
    ensures r.outcome != Ok ==> r.db == db
    ensures r.outcome == Forbidden <==> !IsAdmin(role)
    ensures r.outcome == NotFound <==> IsAdmin(role) && requestId !in db.requests
    ensures r.outcome == AlreadyProcessed <==>
      IsAdmin(role) && requestId in db.requests && db.requests[requestId].status in {Approved, Rejected}
    ensures r.db.books == db.books && r.db.students == db.students && r.db.loans == db.loans
    ensures r.outcome == Ok ==>
      && (db.requests[requestId].status == Pending || db.requests[requestId].status == Returned)
      && r.db.requests == db.requests[requestId := db.requests[requestId].(status := Rejected)]
  {
    if !IsAdmin(role) then Step(Forbidden, db)
    else if requestId !in db.requests then Step(NotFound, db)
    else
      var q := db.requests[requestId];
      match q.status
      case Approved => Step(AlreadyProcessed, db)
      case Rejected => Step(AlreadyProcessed, db)
      case _ => Step(Ok, db.(requests := db.requests[requestId := q.(status := Rejected)]))
  }

  /** The requests whose status is Returned: the ones delete-all removes. */
  function ReturnedIds(requests: map<RequestId, IssueRequest>): (ids: set<RequestId>)
  {
    set k | k in requests && requests[k].status == Returned
  }

  /** Delete every Returned request, reporting NothingToDelete when there is none. */
  function Purge(db: Db, role: string): (r: Step)
    ensures r.outcome in {Ok, Forbidden, NothingToDelete}
    ensures r.outcome != Ok ==> r.db == db
    ensures r.outcome == Forbidden <==> !IsAdmin(role)
    ensures r.outcome == NothingToDelete <==>
      IsAdmin(role) && forall k :: k in db.requests ==> db.requests[k].status != Returned
    ensures r.db.books == db.books && r.db.students == db.students && r.db.loans == db.loans
    ensures IsAdmin(role) ==>
      forall k :: k in r.db.requests <==> k in db.requests && db.requests[k].status != Returned
    ensures forall k :: k in r.db.requests ==> k in db.requests && r.db.requests[k] == db.requests[k]
  {
    if !IsAdmin(role) then Step(Forbidden, db)
    else
      var doomed := ReturnedIds(db.requests);
      assert forall k :: k in doomed <==> k in db.requests && db.requests[k].status == Returned;
      if doomed == {} then Step(NothingToDelete, db)
      else Step(Ok, db.(requests := db.requests - doomed))
  }

  /** Request `k` is an Approved request of the loan's student for the loan's book. */
  predicate IsMatch(requests: map<RequestId, IssueRequest>, loan: Loan, k: RequestId)
  {
    k in requests && requests[k].status == Approved
    && requests[k].studentId == loan.studentId && requests[k].bookId == loan.bookId
  }

  /** Some Approved request matches the loan's student and book. */
  predicate HasMatch(requests: map<RequestId, IssueRequest>, loan: Loan)
  {
    exists k :: k in requests && IsMatch(requests, loan, k)
  }

  /** Cancel loan `loanId`. The handler looks the request up by the loan's
      student and book, not by a reference, and takes whichever Approved
      match the store returns first: `pick` is that match. The request is
      marked Returned and the loan deleted before the book is looked up, so a
      missing book is reported as NotFound with those two writes kept. */
  function Cancel(db: Db, loanId: LoanId, pick: RequestId): (r: Step)
    requires loanId in db.loans && HasMatch(db.requests, db.loans[loanId]) ==> IsMatch(db.requests, db.loans[loanId], pick)
    ensures r.outcome in {Ok, NotFound}
    ensures loanId !in db.loans || !HasMatch(db.requests, db.loans[loanId]) ==> r == Step(NotFound, db)
    ensures r.outcome == Ok <==>
      loanId in db.loans && HasMatch(db.requests, db.loans[loanId]) && db.loans[loanId].bookId in db.books
    ensures r.db.students == db.students
    ensures loanId in db.loans && HasMatch(db.requests, db.loans[loanId]) ==>
      var bid := db.loans[loanId].bookId;
      && r.db.requests == db.requests[pick := db.requests[pick].(status := Returned)]
      && r.db.loans == db.loans - {loanId}
      && r.db.books.Keys == db.books.Keys
      && (bid in db.books ==> r.db.books == db.books[bid := db.books[bid].(quantity := db.books[bid].quantity + 1)])
      && (bid !in db.books ==> r.db.books == db.books)
  {
    if loanId !in db.loans then Step(NotFound, db)
    else
      var loan := db.loans[loanId];
      if !HasMatch(db.requests, loan) then Step(NotFound, db)
      else
        var requests := db.requests[pick := db.requests[pick].(status := Returned)];
        var loans := db.loans - {loanId};
        if loan.bookId in db.books then
          var book := db.books[loan.bookId];
          Step(Ok, db.(requests := requests, loans := loans,
                       books := db.books[loan.bookId := book.(quantity := book.quantity + 1)]))
        else
          Step(NotFound, db.(requests := requests, loans := loans))
  }
}
