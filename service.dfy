/** The service layer: BookService (its implementation is not part of this model; its
    behaviour is the one its tests require), LoanServiceImpl, the mail sender the overdue
    scan calls, and ScheduledService. */
module Service {
  import opened Wrappers
  import opened Domain
  import opened Paging
  import opened Seqs
  import opened Repository
  import opened Dto

  /** The message of the BusinessException thrown by LoanServiceImpl.save. */
  const AlreadyLoaned := "Book already loaned"

  /** The message of the BusinessException thrown by BookService.save. */
  const DuplicatedIsbn := "ISBN já cadastrado."

  /** Days a book may stay out before its loan is late. */
  const LoanDays := 4

  // ---------------------------------------------------------------- book service

  /** Storing a book whose isbn is not in the table keeps isbns unique, whether the book is
      inserted or replaces the row of its id. */
  lemma SaveKeepsUniqueIsbns(books: seq<Book>, nextId: nat, book: Book)
    requires UniqueIsbns(books) && !ExistsByIsbn(books, book.isbn)
    ensures UniqueIsbns(SaveBook(books, nextId, book))
  {
    var after := SaveBook(books, nextId, book);
    forall i, j | 0 <= i < j < |after| ensures after[i].isbn != after[j].isbn {
      assert after[i] == book || after[i] == books[i];
      assert after[j].isbn == book.isbn || after[j] == books[j];
      assert books[i] in books;
      assert j < |books| ==> books[j] in books;
    }
  }

  /** Replacing title and author of a stored book keeps isbns unique. */
  lemma EditKeepsUniqueIsbns(books: seq<Book>, nextId: nat, i: nat, title: Option<string>, author: Option<string>)
    requires BookTable(books, nextId) && UniqueIsbns(books) && i < |books|
    ensures var edited := books[i].(title := title, author := author);
            StoredAt(books, edited.id) == Some(i) && UniqueIsbns(SaveBook(books, nextId, edited))
  {
    FindByIdUnique(books, i);
  }

  class BookService {
    const repository: BookRepository

    constructor (repository: BookRepository)
      ensures this.repository == repository
    {
      this.repository := repository;
    }

    /** save: refuses a book whose isbn is already stored, otherwise stores it. */
    method Save(book: Book) returns (r: Result<Book, Error>)
      requires repository.Valid()
      modifies repository
      ensures repository.Valid()
      ensures r.Failure? <==> ExistsByIsbn(old(repository.books), book.isbn)
      ensures r.Failure? ==> r.error == Business(DuplicatedIsbn) && unchanged(repository)
      ensures r.Success? ==>
                && repository.books == SaveBook(old(repository.books), old(repository.nextId), book)
                && repository.nextId == NextIdAfterSave(old(repository.books), old(repository.nextId), book)
                && r.value.id.Some? && r.value == book.(id := r.value.id)
                && FindById(repository.books, r.value.id.value) == Some(r.value)
      ensures UniqueIsbns(old(repository.books)) ==> UniqueIsbns(repository.books)
    {
      if ExistsByIsbn(repository.books, book.isbn) {
        return Failure(Business(DuplicatedIsbn));
      }
      if UniqueIsbns(repository.books) {
        SaveKeepsUniqueIsbns(repository.books, repository.nextId, book);
      }
      var saved := repository.Save(book);
      r := Success(saved);
    }

    /** getById: the stored book with that id, or empty. */
    function GetById(id: int): (r: Option<Book>)
      reads repository
      ensures r.Some? ==> r.value in repository.books && r.value.id == Some(id)
      ensures r.None? <==> forall b :: b in repository.books ==> b.id != Some(id)
    {
      FindById(repository.books, id)
    }

    /** getBookByIsbn: the stored book with that isbn, or empty. */
    function GetBookByIsbn(isbn: Option<string>): (r: Option<Book>)
      reads repository
      ensures r.Some? ==> r.value in repository.books && r.value.isbn == isbn
      ensures r.None? <==> forall b :: b in repository.books ==> b.isbn != isbn
    {
      FindByIsbn(repository.books, isbn)
    }

    /** delete: a book without an id is refused and nothing is deleted; otherwise its row is deleted. */
    method Delete(book: Book) returns (r: Outcome<Error>)
      requires repository.Valid()
      modifies repository
      ensures repository.Valid()
      ensures book.id.None? ==> r == Fail(IllegalArgument) && unchanged(repository)
      ensures book.id.Some? ==>
                && r == Pass
                && repository.books == RemoveId(old(repository.books), book.id.value)
                && repository.nextId == old(repository.nextId)
                && FindById(repository.books, book.id.value).None?
      ensures UniqueIsbns(old(repository.books)) ==> UniqueIsbns(repository.books)
    {
      if book.id.None? {
        return Fail(IllegalArgument);
      }
      repository.Delete(book);
      r := Pass;
    }

    /** update: a book without an id is refused and nothing is saved; otherwise it is stored and returned. */
    method Update(book: Book) returns (r: Result<Book, Error>)
      requires repository.Valid()
      modifies repository
      ensures repository.Valid()
      ensures book.id.None? ==> r == Failure(IllegalArgument) && unchanged(repository)
      ensures book.id.Some? ==>
                && repository.books == SaveBook(old(repository.books), old(repository.nextId), book)
                && repository.nextId == NextIdAfterSave(old(repository.books), old(repository.nextId), book)
                && r == Success(SavedBook(old(repository.books), old(repository.nextId), book))
                && r.value == book.(id := r.value.id)
                && FindById(repository.books, r.value.id.value) == Some(r.value)
    {
      if book.id.None? {
        return Failure(IllegalArgument);
      }
      var saved := repository.Save(book);
      r := Success(saved);
    }
  }

  // ---------------------------------------------------------------- loan service

  /** Saving a loan whose book has no outstanding loan keeps at most one outstanding loan
      per book; the saved book ends with at most one whatever the rest of the table holds. */
  lemma SaveKeepsOneOutstanding(loans: seq<Loan>, loan: Loan)
    requires !ExistsByBookAndNotReturned(loans, loan.bookId)
    ensures OutstandingCount(SaveLoan(loans, loan), loan.bookId) <= 1
    ensures OneOutstandingPerBook(loans) ==> OneOutstandingPerBook(SaveLoan(loans, loan))
  {
    CountPositiveIff(loans, loan.bookId);
    SaveCountBound(loans, loan, loan.bookId);
    if OneOutstandingPerBook(loans) {
      forall b ensures OutstandingCount(SaveLoan(loans, loan), b) <= 1 {
        SaveCountBound(loans, loan, b);
      }
    }
  }

  /** Saving a loan raises a book's outstanding count by at most the loan's own contribution. */
  lemma SaveCountBound(loans: seq<Loan>, loan: Loan, b: int)
    ensures OutstandingCount(SaveLoan(loans, loan), b) <= OutstandingCount(loans, b) + Contribution(loan, b)
  {
    if loan.id.Some? && 0 <= loan.id.value < |loans| {
      CountReplace(loans, loan.id.value, loan, b);
    } else {
      CountAppend(loans, loan.(id := Some(|loans|)), b);
    }
  }

  /** An update that only sets `returned` to true never increases any book's count of
      outstanding loans, so it keeps the rule. */
  lemma ReturnKeepsOneOutstanding(loans: seq<Loan>, loan: Loan)
    requires loan.id.Some? && 0 <= loan.id.value < |loans|
    requires loan == loans[loan.id.value].(returned := Some(true))
    ensures forall b :: OutstandingCount(SaveLoan(loans, loan), b) <= OutstandingCount(loans, b)
    ensures OneOutstandingPerBook(loans) ==> OneOutstandingPerBook(SaveLoan(loans, loan))
  {
    forall b ensures OutstandingCount(SaveLoan(loans, loan), b) <= OutstandingCount(loans, b) {
      CountReplace(loans, loan.id.value, loan, b);
    }
  }

  /** Setting `returned` back to null or false on a returned loan whose book is out again
      gives that book two outstanding loans: update does not keep the rule in general. */
  lemma UnreturnCanBreakOneOutstanding(loans: seq<Loan>, k: nat, j: nat, returned: Option<bool>)
    requires LoanTable(loans) && OneOutstandingPerBook(loans)
    requires k < |loans| && j < |loans| && k != j
    requires loans[k].bookId == loans[j].bookId && loans[k].returned == Some(true) && Outstanding(loans[j])
    requires returned != Some(true)
    ensures !OneOutstandingPerBook(SaveLoan(loans, loans[k].(returned := returned)))
  {
    var b := loans[k].bookId;
    var loan := loans[k].(returned := returned);
    CountReplace(loans, k, loan, b);
    assert loans[j] in loans;
    CountPositiveIff(loans, b);
    assert OutstandingCount(SaveLoan(loans, loan), b) == 2;
  }

  /** An outstanding loan is late once its date is strictly before today - 4: a loan dated
      today - 4 is not late, one dated today - 5 is, and a returned loan never is. */
  lemma LateLoanCutoff(loans: seq<Loan>, loan: Loan, today: int)
    requires loan in loans
    ensures loan.loanDate == today - 4 ==> loan !in FindByLoanDateLessThanAndNotReturned(loans, today - LoanDays)
    ensures loan.loanDate == today - 5 && Outstanding(loan) ==> loan in FindByLoanDateLessThanAndNotReturned(loans, today - LoanDays)
    ensures loan.returned == Some(true) ==> loan !in FindByLoanDateLessThanAndNotReturned(loans, today - LoanDays)
  {
  }

  /** LoanServiceImpl over its loan repository. */
  class LoanService {
    const repository: LoanRepository

    constructor (repository: LoanRepository)
      ensures this.repository == repository
    {
      this.repository := repository;
    }

    /** save: refuses a loan whose book already has a loan with `returned` null or false,
        otherwise stores it. */
    method Save(loan: Loan) returns (r: Result<Loan, Error>)
      requires repository.Valid()
      modifies repository
      ensures repository.Valid()
      ensures r.Failure? <==> ExistsByBookAndNotReturned(old(repository.loans), loan.bookId)
      ensures r.Failure? ==> r.error == Business(AlreadyLoaned) && unchanged(repository)
      ensures r.Success? ==>
                && repository.loans == SaveLoan(old(repository.loans), loan)
                && r.value.id.Some? && r.value == loan.(id := r.value.id)
                && repository.FindById(r.value.id.value) == Some(r.value)
      ensures OneOutstandingPerBook(old(repository.loans)) ==> OneOutstandingPerBook(repository.loans)
    {
      if ExistsByBookAndNotReturned(repository.loans, loan.bookId) {
        return Failure(Business(AlreadyLoaned));
      }
      SaveKeepsOneOutstanding(repository.loans, loan);
      var saved := repository.Save(loan);
      r := Success(saved);
    }

    /** getById: the stored loan with that id, or empty. */
    function GetById(id: int): (r: Option<Loan>)
      reads repository
      requires repository.Valid()
      ensures r.Some? ==> r.value in repository.loans && r.value.id == Some(id)
      ensures r.None? <==> forall l :: l in repository.loans ==> l.id != Some(id)
    {
      repository.FindById(id)
    }

    /** update: stores the loan as given, with no availability check. */
    method Update(loan: Loan) returns (saved: Loan)
      requires repository.Valid()
      modifies repository
      ensures repository.Valid()
      ensures repository.loans == SaveLoan(old(repository.loans), loan)
      ensures saved.id.Some? && saved == loan.(id := saved.id)
      ensures repository.FindById(saved.id.value) == Some(saved)
    {
      saved := repository.Save(loan);
    }

    /** find: the loans whose book has the filter's isbn or whose customer is the filter's customer, paged. */
    function Find(filter: LoanFilterDTO, p: Pageable): (r: Page<Loan>)
      reads repository, repository.bookRepository
      ensures r.pageable == p && |r.content| <= p.size
      ensures forall l :: l in r.content ==>
                l in repository.loans && MatchesIsbnOrCustomer(l, repository.bookRepository.books, filter.isbn, filter.customer)
      ensures r.totalElements == |LoansMatching(repository.loans, repository.bookRepository.books, filter.isbn, filter.customer)|
    {
      FindByBookIsbnOrCustomer(repository.loans, repository.bookRepository.books, filter.isbn, filter.customer, p)
    }

    /** getLoansByBook: the loans of the book, paged. */
    function GetLoansByBook(book: Book, p: Pageable): (r: Page<Loan>)
      reads repository
      ensures r.pageable == p && |r.content| <= p.size
      ensures forall l :: l in r.content ==> l in repository.loans && Some(l.bookId) == book.id
    {
      FindByBook(repository.loans, book.id, p)
    }

    /** getAllLateLoans: the outstanding loans dated strictly before today - 4. */
    function GetAllLateLoans(today: int): (r: seq<Loan>)
      reads repository
      ensures forall l :: l in r <==> l in repository.loans && Outstanding(l) && l.loanDate < today - LoanDays
    {
      FindByLoanDateLessThanAndNotReturned(repository.loans, today - LoanDays)
    }
  }

  // ---------------------------------------------------------------- overdue scan

  /** One call of EmailService.sendMails. */
  datatype Mail = Mail(body: string, recipients: seq<Option<string>>)

  /** The mail sender, reduced to the record of its calls. */
  class EmailService {
    var sent: seq<Mail>

    constructor ()
      ensures sent == []
    {
      sent := [];
    }

    method SendMails(body: string, emails: seq<Option<string>>)
      modifies this
      ensures sent == old(sent) + [Mail(body, emails)]
    {
      sent := sent + [Mail(body, emails)];
    }
  }

  /** The recipient list of the overdue scan: the email of each late loan, in order. */
  function Recipients(lateLoans: seq<Loan>): (r: seq<Option<string>>)
    ensures |r| == |lateLoans|
    ensures forall i :: 0 <= i < |lateLoans| ==> r[i] == lateLoans[i].email
  {
    Map(lateLoans, (l: Loan) => l.email)
  }

  /** Every recipient of a scan is the email of an outstanding loan dated before today - 4. */
  lemma RecipientsComeFromLateLoans(loans: seq<Loan>, today: int, i: nat)
    requires i < |FindByLoanDateLessThanAndNotReturned(loans, today - LoanDays)|
    ensures var late := FindByLoanDateLessThanAndNotReturned(loans, today - LoanDays);
            && Recipients(late)[i] == late[i].email
            && late[i] in loans && Outstanding(late[i]) && late[i].loanDate < today - 4
  {
    var late := FindByLoanDateLessThanAndNotReturned(loans, today - LoanDays);
    assert late[i] in late;
  }

  class ScheduledService {
    const messageBodyEmail: string
    const loanService: LoanService
    const emailService: EmailService

    constructor (messageBodyEmail: string, loanService: LoanService, emailService: EmailService)
      ensures this.messageBodyEmail == messageBodyEmail
      ensures this.loanService == loanService && this.emailService == emailService
    {
      this.messageBodyEmail := messageBodyEmail;
      this.loanService := loanService;
      this.emailService := emailService;
    }

    /** sendMailToLateLoans: one send of the configured body to the emails of all late loans,
        even when there are none. */
    method SendMailToLateLoans(today: int)
      modifies emailService
      ensures emailService.sent == old(emailService.sent) + [Mail(messageBodyEmail, Recipients(loanService.GetAllLateLoans(today)))]
    {
      var allLateLoans := loanService.GetAllLateLoans(today);
      var emails := Recipients(allLateLoans);
      emailService.SendMails(messageBodyEmail, emails);
    }
  }
}
