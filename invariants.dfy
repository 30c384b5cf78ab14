/** What the handlers keep true of the stores: no book's available count goes
    below zero, every Approved request is matched by exactly one loan for the
    same student and book, a student has at most one Pending request per
    book, and each copy of a book is either available or on loan. */
module Invariants {
  import opened Records
  import opened Counting
  import opened Lifecycle

  /** Selects the Approved requests of student `sid` for book `bid`. */
  function ApprovedFor(sid: StudentId, bid: BookId): (p: IssueRequest -> bool)
  {
    (q: IssueRequest) => q.status == Approved && q.studentId == sid && q.bookId == bid
  }

  /** Selects the loans of book `bid` to student `sid`. */
  function LoanOf(sid: StudentId, bid: BookId): (p: Loan -> bool)
  {
    (l: Loan) => l.studentId == sid && l.bookId == bid
  }

  /** Selects the loans of book `bid`. */
  function LoanOfBook(bid: BookId): (p: Loan -> bool)
  {
    (l: Loan) => l.bookId == bid
  }

  /** No book has a negative number of available copies. */
  ghost predicate StockNonNegative(db: Db)
  {
    forall b :: b in db.books ==> db.books[b].quantity >= 0
  }

  /** For every student and book, the Approved requests and the loans are
      equally many. */
  ghost predicate Balanced(db: Db)
  {
    forall sid: StudentId, bid: BookId ::
      CountWhere(db.requests, ApprovedFor(sid, bid)) == CountWhere(db.loans, LoanOf(sid, bid))
  }

  /** No two Pending requests share a student and a book. */
  ghost predicate SinglePending(db: Db)
  {
    forall k1, k2 ::
      k1 in db.requests && k2 in db.requests && k1 != k2 && db.requests[k1].status == Pending ==>
        !IsPendingFor(db.requests[k2], db.requests[k1].studentId, db.requests[k1].bookId)
  }

  ghost predicate Consistent(db: Db)
  {
    StockNonNegative(db) && Balanced(db) && SinglePending(db)
  }

  /** For every book present before and after, available copies plus copies
      on loan is the same number. */
  ghost predicate StockConserved(db: Db, db': Db)
  {
    forall b :: b in db.books && b in db'.books ==>
      db'.books[b].quantity + CountWhere(db'.loans, LoanOfBook(b))
        == db.books[b].quantity + CountWhere(db.loans, LoanOfBook(b))
  }

  /** The status moves the handlers make: Pending to Approved or Rejected,
      Approved to Returned, and Returned to Rejected. */
  predicate AllowedTransition(from: Status, to: Status)
  {
    || from == to
    || (from == Pending && (to == Approved || to == Rejected))
    || (from == Approved && to == Returned)
    || (from == Returned && to == Rejected)
  }

  /** Between `db` and `db'` every kept request changed at most its status,
      by an allowed move, and every new request is Pending. The snapshot
      fields are never refreshed. */
  ghost predicate LedgerEvolves(db: Db, db': Db)
  {
    && (forall k :: k in db.requests && k in db'.requests ==>
          && db'.requests[k] == db.requests[k].(status := db'.requests[k].status)
          && AllowedTransition(db.requests[k].status, db'.requests[k].status))
    && (forall k :: k in db'.requests && k !in db.requests ==> db'.requests[k].status == Pending)
  }

  /** Once a request has left Pending it never comes back, and Rejected is
      final; Returned is not final, since reject accepts it. */
  lemma TransitionsAreForward(from: Status, to: Status)
    requires AllowedTransition(from, to)
    ensures to == Pending ==> from == Pending
    ensures from == Rejected ==> to == Rejected
    ensures from == Returned ==> to == Returned || to == Rejected
  {
  }

  // ---------------------------------------------------------------- submit

  lemma {:induction false} SubmitKeepsConsistent(db: Db, sid: StudentId, bid: BookId, newId: RequestId)
    requires newId !in db.requests
    ensures Consistent(db) ==> Consistent(Submit(db, sid, bid, newId).db)
  {
    var r := Submit(db, sid, bid, newId);
    if Consistent(db) && r.outcome == Ok {
      var q := r.db.requests[newId];
      assert r.db.requests == db.requests[newId := q];
      forall s: StudentId, b: BookId
        ensures CountWhere(r.db.requests, ApprovedFor(s, b)) == CountWhere(r.db.loans, LoanOf(s, b))
      {
        CountInsert(db.requests, newId, q, ApprovedFor(s, b));
      }
      forall k1, k2 | k1 in r.db.requests && k2 in r.db.requests && k1 != k2 && r.db.requests[k1].status == Pending
        ensures !IsPendingFor(r.db.requests[k2], r.db.requests[k1].studentId, r.db.requests[k1].bookId)
      {
        if k1 == newId {
          assert !IsPendingFor(db.requests[k2], sid, bid);
        } else if k2 == newId {
          assert !IsPendingFor(db.requests[k1], sid, bid);
        }
      }
    }
  }

  lemma SubmitEvolvesLedger(db: Db, sid: StudentId, bid: BookId, newId: RequestId)
    requires newId !in db.requests
    ensures LedgerEvolves(db, Submit(db, sid, bid, newId).db)
    ensures StockConserved(db, Submit(db, sid, bid, newId).db)
  {
  }

  // --------------------------------------------------------------- approve

  lemma {:induction false} ApproveKeepsConsistent(db: Db, role: string, rid: RequestId, newId: LoanId, issueDate: Date, returnDate: Date)
    requires newId !in db.loans
    ensures Consistent(db) ==> Consistent(Approve(db, role, rid, newId, issueDate, returnDate).db)
  {
    var r := Approve(db, role, rid, newId, issueDate, returnDate);
    if Consistent(db) && r.outcome == Ok {
      var q := db.requests[rid];
      var loan := Loan(q.studentId, q.bookId, issueDate, returnDate);
      forall s: StudentId, b: BookId
        ensures CountWhere(r.db.requests, ApprovedFor(s, b)) == CountWhere(r.db.loans, LoanOf(s, b))
      {
        CountReplace(db.requests, rid, q.(status := Approved), ApprovedFor(s, b));
        CountInsert(db.loans, newId, loan, LoanOf(s, b));
      }
    }
  }

  /** Approving moves one copy from available to on loan. */
  lemma {:induction false} ApproveConservesStock(db: Db, role: string, rid: RequestId, newId: LoanId, issueDate: Date, returnDate: Date)
    requires newId !in db.loans
    ensures StockConserved(db, Approve(db, role, rid, newId, issueDate, returnDate).db)
  {
    var r := Approve(db, role, rid, newId, issueDate, returnDate);
    if r.outcome == Ok {
      var q := db.requests[rid];
      forall b | b in db.books && b in r.db.books
        ensures r.db.books[b].quantity + CountWhere(r.db.loans, LoanOfBook(b))
             == db.books[b].quantity + CountWhere(db.loans, LoanOfBook(b))
      {
        CountInsert(db.loans, newId, Loan(q.studentId, q.bookId, issueDate, returnDate), LoanOfBook(b));
      }
    }
  }

  lemma ApproveEvolvesLedger(db: Db, role: string, rid: RequestId, newId: LoanId, issueDate: Date, returnDate: Date)
    requires newId !in db.loans
    ensures LedgerEvolves(db, Approve(db, role, rid, newId, issueDate, returnDate).db)
  {
  }

  /** A retried approval of a request that was just approved is refused and
      changes nothing, so inventory is never decremented twice. */
  lemma ApproveTwiceRefused(db: Db, role: string, rid: RequestId, newId: LoanId, newId': LoanId, d1: Date, d2: Date, d1': Date, d2': Date)
    requires newId !in db.loans
    requires Approve(db, role, rid, newId, d1, d2).outcome == Ok
    requires newId' !in Approve(db, role, rid, newId, d1, d2).db.loans
    ensures var db' := Approve(db, role, rid, newId, d1, d2).db;
      Approve(db', role, rid, newId', d1', d2') == Step(AlreadyProcessed, db')
  {
  }

  // ---------------------------------------------------------------- reject

  lemma {:induction false} RejectKeepsConsistent(db: Db, role: string, rid: RequestId)
    ensures Consistent(db) ==> Consistent(Reject(db, role, rid).db)
  {
    var r := Reject(db, role, rid);
    if Consistent(db) && r.outcome == Ok {
      var q := db.requests[rid];
      forall s: StudentId, b: BookId
        ensures CountWhere(r.db.requests, ApprovedFor(s, b)) == CountWhere(r.db.loans, LoanOf(s, b))
      {
        CountReplace(db.requests, rid, q.(status := Rejected), ApprovedFor(s, b));
      }
    }
  }

  lemma RejectEvolvesLedger(db: Db, role: string, rid: RequestId)
    ensures LedgerEvolves(db, Reject(db, role, rid).db)
    ensures StockConserved(db, Reject(db, role, rid).db)
  {
  }

  /** A retried rejection is refused and changes nothing. */
  lemma RejectTwiceRefused(db: Db, role: string, rid: RequestId)
    requires Reject(db, role, rid).outcome == Ok
    ensures var db' := Reject(db, role, rid).db;
      Reject(db', role, rid) == Step(AlreadyProcessed, db')
  {
  }

  // ----------------------------------------------------------------- purge

  lemma {:induction false} PurgeKeepsConsistent(db: Db, role: string)
    ensures Consistent(db) ==> Consistent(Purge(db, role).db)
  {
    var r := Purge(db, role);
    if Consistent(db) && r.outcome == Ok {
      var doomed := ReturnedIds(db.requests);
      assert r.db.requests == db.requests - doomed;
      forall s: StudentId, b: BookId
        ensures CountWhere(r.db.requests, ApprovedFor(s, b)) == CountWhere(r.db.loans, LoanOf(s, b))
      {
        CountRemoveNone(db.requests, doomed, ApprovedFor(s, b));
      }
    }
  }

  lemma PurgeEvolvesLedger(db: Db, role: string)
    ensures LedgerEvolves(db, Purge(db, role).db)
    ensures StockConserved(db, Purge(db, role).db)
  {
  }

  /** Delete-all removes exactly as many requests as there are Returned
      ones: the count the handler reports. */
  lemma {:induction false} PurgeRemovesReturned(db: Db, role: string)
    requires IsAdmin(role)
    ensures |db.requests.Keys| == |Purge(db, role).db.requests.Keys| + |ReturnedIds(db.requests)|
  {
    var m, doomed := db.requests, ReturnedIds(db.requests);
    if doomed != {} {
      assert Purge(db, role).db.requests == m - doomed;
      assert (m - doomed).Keys == m.Keys - doomed;
      CardRemoveSubset(m.Keys, doomed);
    }
  }

  /** Right after a delete-all there is nothing left to delete. */
  lemma PurgeIdempotent(db: Db, role: string)
    requires IsAdmin(role)
    ensures var db' := Purge(db, role).db;
      Purge(db', role) == Step(NothingToDelete, db')
  {
  }

  // ---------------------------------------------------------------- cancel

  lemma {:induction false} CancelKeepsConsistent(db: Db, lid: LoanId, pick: RequestId)
    requires lid in db.loans && HasMatch(db.requests, db.loans[lid]) ==> IsMatch(db.requests, db.loans[lid], pick)
    ensures Consistent(db) ==> Consistent(Cancel(db, lid, pick).db)
  {
    var r := Cancel(db, lid, pick);
    if Consistent(db) && lid in db.loans && HasMatch(db.requests, db.loans[lid]) {
      var q := db.requests[pick];
      forall s: StudentId, b: BookId
        ensures CountWhere(r.db.requests, ApprovedFor(s, b)) == CountWhere(r.db.loans, LoanOf(s, b))
      {
        CountReplace(db.requests, pick, q.(status := Returned), ApprovedFor(s, b));
        CountRemove(db.loans, lid, LoanOf(s, b));
      }
    }
  }

  /** Cancelling moves one copy from on loan back to available, whenever the
      book is still in the catalogue. */
  lemma {:induction false} CancelConservesStock(db: Db, lid: LoanId, pick: RequestId)
    requires lid in db.loans && HasMatch(db.requests, db.loans[lid]) ==> IsMatch(db.requests, db.loans[lid], pick)
    ensures StockConserved(db, Cancel(db, lid, pick).db)
  {
    var r := Cancel(db, lid, pick);
    if lid in db.loans && HasMatch(db.requests, db.loans[lid]) {
      forall b | b in db.books && b in r.db.books
        ensures r.db.books[b].quantity + CountWhere(r.db.loans, LoanOfBook(b))
             == db.books[b].quantity + CountWhere(db.loans, LoanOfBook(b))
      {
        CountRemove(db.loans, lid, LoanOfBook(b));
      }
    }
  }

  lemma CancelEvolvesLedger(db: Db, lid: LoanId, pick: RequestId)
    requires lid in db.loans && HasMatch(db.requests, db.loans[lid]) ==> IsMatch(db.requests, db.loans[lid], pick)
    ensures LedgerEvolves(db, Cancel(db, lid, pick).db)
  {
  }

  /** Cancelling the loan an approval just created restores the catalogue and
      the loans exactly, and leaves a matching request Returned. */
  lemma ApproveThenCancel(db: Db, role: string, rid: RequestId, newId: LoanId, issueDate: Date, returnDate: Date, pick: RequestId)
    requires newId !in db.loans
    requires Approve(db, role, rid, newId, issueDate, returnDate).outcome == Ok
    requires IsMatch(Approve(db, role, rid, newId, issueDate, returnDate).db.requests, Loan(db.requests[rid].studentId, db.requests[rid].bookId, issueDate, returnDate), pick)
    ensures var db' := Approve(db, role, rid, newId, issueDate, returnDate).db;
      var r := Cancel(db', newId, pick);
      && r.outcome == Ok
      && r.db.books == db.books
      && r.db.loans == db.loans
      && r.db.requests[pick].status == Returned
  {
    var db' := Approve(db, role, rid, newId, issueDate, returnDate).db;
    assert db'.loans - {newId} == db.loans;
    var bid := db.requests[rid].bookId;
    assert db'.books[bid := db'.books[bid].(quantity := db'.books[bid].quantity + 1)] == db.books;
  }
}
