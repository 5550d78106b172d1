/** The JPA entities Book and Loan and the exceptions of the service layer.
    The entity classes are not part of this model; their fields follow their uses
    in the repositories, services and controllers. */
module Domain {
  import opened Wrappers

  /** A row of the book table. Every field is a nullable Java reference. */
  datatype Book = Book(id: Option<int>, title: Option<string>, author: Option<string>, isbn: Option<string>)

  /** A row of the loan table. `bookId` is the key of the book the loan references,
      `loanDate` a day number, `returned` the nullable Boolean flag. */
  datatype Loan = Loan(
    id: Option<int>,
    bookId: int,
    customer: Option<string>,
    email: Option<string>,
    loanDate: int,
    returned: Option<bool>)

  /** The loan is still out: `returned` is null or false. */
  predicate Outstanding(loan: Loan) {
    loan.returned != Some(true)
  }

  /** BusinessException carries a message; IllegalArgumentException is thrown by the
      book service on a book without an id. */
  datatype Error = Business(message: string) | IllegalArgument
}
