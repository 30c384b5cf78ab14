/** The records held by the library's stores: books, students, issue
    requests and loans (issued books), and the outcomes a handler reports. */
module Records {

  /** Store identifiers. The database generates them; the model treats them
      as opaque numbers. */
  type BookId = nat
  type StudentId = nat
  type RequestId = nat
  type LoanId = nat

  /** A timestamp. The handlers only store dates, never compute with them. */
  type Date = int

  /** A catalogue entry. `quantity` counts the copies still available for
      issue (default 1 when the book is created). Genre, sub-genre, height and
      publisher are catalogue metadata that no handler of the core reads. */
  datatype Book = Book(title: string, author: string, quantity: int)

  /** The part of a student record the handlers read. */
  datatype Student = Student(name: string, branch: string)

  /** Lifecycle state of an issue request. */
  datatype Status = Pending | Approved | Rejected | Returned

  /** An issue request, with the snapshot of the student's name and branch
      and of the book's title and author taken when it was submitted. */
  datatype IssueRequest = IssueRequest(
    studentId: StudentId,
    bookId: BookId,
    studentName: string,
    studentBranch: string,
    bookTitle: string,
    bookAuthor: string,
    status: Status)

  /** A loan: one copy of a book currently issued to a student. */
  datatype Loan = Loan(studentId: StudentId, bookId: BookId, issueDate: Date, returnDate: Date)

  /** What a handler answers. `Forbidden` is the admin guard's 403;
      `NotFound` and `NothingToDelete` are 404s; `AlreadyProcessed`,
      `DuplicatePending` and `Unavailable` are 400s. */
  datatype Outcome = Ok | Forbidden | NotFound | AlreadyProcessed | DuplicatePending | Unavailable | NothingToDelete

  /** The four stores at one instant. */
  datatype Db = Db(
    books: map<BookId, Book>,
    students: map<StudentId, Student>,
    requests: map<RequestId, IssueRequest>,
    loans: map<LoanId, Loan>)

  /** A handler's answer together with the stores it leaves behind. */
  datatype Step = Step(outcome: Outcome, db: Db)

  /** The admin guard: only the role string "admin" passes. */
  predicate IsAdmin(role: string)
  {
    role == "admin"
  }
}
