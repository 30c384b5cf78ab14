/** A client of the issue routes: one copy of book X, students A and B. It
    uses nothing but the methods' contracts, in three steps that meet at
    the states where A holds the only copy and where B waits for it. */
module Scenario {
  import opened Records
  import opened Lifecycle
  import opened IssueRoutes

  const X: BookId := 7
  const A: StudentId := 1
  const B: StudentId := 2

  /** The stores once A's request 100 is approved as loan 500. */
  predicate AHoldsTheCopy(desk: IssueDesk, issued: Date, due: Date)
    reads desk
  {
    && desk.books == map[X := Book("X", "Author", 0)]
    && desk.students == map[A := Student("A", "CS"), B := Student("B", "EE")]
    && desk.requests == map[100 := IssueRequest(A, X, "A", "CS", "X", "Author", Approved)]
    && desk.loans == map[500 := Loan(A, X, issued, due)]
  }

  /** A asks for the only copy and is approved. */
  method FirstLoan(issued: Date, due: Date) returns (desk: IssueDesk)
    ensures AHoldsTheCopy(desk, issued, due)
  {
    desk := new IssueDesk(
      map[X := Book("X", "Author", 1)],
      map[A := Student("A", "CS"), B := Student("B", "EE")],
      map[], map[]);
    var o := desk.NewRequest(A, X, 100);
    assert o == Ok;
    o := desk.ApproveRequest("admin", 100, 500, issued, due);
    assert o == Ok;
  }

  /** The stores once B's request 101 is also on the ledger, still Pending. */
  predicate BWaits(desk: IssueDesk, issued: Date, due: Date)
    reads desk
  {
    && desk.books == map[X := Book("X", "Author", 0)]
    && desk.students == map[A := Student("A", "CS"), B := Student("B", "EE")]
    && desk.requests == map[100 := IssueRequest(A, X, "A", "CS", "X", "Author", Approved),
                            101 := IssueRequest(B, X, "B", "EE", "X", "Author", Pending)]
    && desk.loans == map[500 := Loan(A, X, issued, due)]
  }

  /** B may still request X while A holds it, but B's approval is refused as
      Unavailable, and a non-admin's approval as Forbidden, with no change. */
  method SecondRequest(desk: IssueDesk, issued: Date, due: Date)
    requires AHoldsTheCopy(desk, issued, due)
    modifies desk
    ensures BWaits(desk, issued, due)
  {
    var o := desk.NewRequest(B, X, 101);
    assert o == Ok;
    o := desk.ApproveRequest("admin", 101, 501, issued, due);
    assert o == Unavailable;
    o := desk.ApproveRequest("student", 101, 501, issued, due);
    assert o == Forbidden;
  }

  /** Cancelling A's loan returns A's request and the copy; B's approval then
      succeeds and takes the copy again. */
  method SecondLoan(desk: IssueDesk, issued: Date, due: Date)
    requires BWaits(desk, issued, due)
    modifies desk
    ensures X in desk.books && desk.books[X].quantity == 0
    ensures 100 in desk.requests && desk.requests[100].status == Returned
    ensures 101 in desk.requests && desk.requests[101].status == Approved
    ensures desk.loans.Keys == {502} && desk.loans[502].studentId == B
  {
    ghost var picked;
    assert IsMatch(desk.requests, desk.loans[500], 100);
    var o;
    o, picked := desk.CancelIssue(500);
    assert picked == 100;
    assert o == Ok && desk.books[X].quantity == 1 && desk.requests[100].status == Returned;
    assert desk.loans == map[];

    o := desk.ApproveRequest("admin", 101, 502, issued, due);
    assert o == Ok;
  }
}
