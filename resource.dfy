/** The REST controllers BookController and LoanController, with HTTP outcomes as values. */
module Resource {
  import opened Wrappers
  import opened Domain
  import opened Paging
  import opened Seqs
  import opened Repository
  import opened Dto
  import opened Service

  /** The outcome of a request: a body, 404 NOT_FOUND, or 400 BAD_REQUEST with the
      `errors` list of an ApiErrors payload. */
  datatype Response<T> = Ok(body: T) | NotFound | BadRequest(errors: seq<string>)

  /** The reason of the BAD_REQUEST that LoanController.create raises for an unknown isbn. */
  const BookNotFoundForIsbn := "Book not found for passed Isbn"

  /** The errors list of a rejected BookDTO: one message per violated constraint, in order. */
  function ValidationErrors(dto: BookDTO): (r: seq<string>)
    ensures |r| == |Violations(dto)|
    ensures forall i :: 0 <= i < |r| ==> r[i] == Message(Violations(dto)[i])
    ensures r == [] <==> Violations(dto) == []
  {
    Map(Violations(dto), Message)
  }

  /** A BookDTO with title, author and isbn all null is answered with six errors: three
      null and three empty messages, one of each per field. */
  lemma EmptyDtoGetsSixErrors(id: Option<int>)
    ensures var errors := ValidationErrors(BookDTO(id, None, None, None));
            && |errors| == 6
            && multiset(errors)["must not be null"] == 3
            && multiset(errors)["must not be empty"] == 3
  {
    var dto := BookDTO(id, None, None, None);
    assert Violations(dto) == FieldViolations("title", None) + FieldViolations("author", None) + FieldViolations("isbn", None);
    var errors := ValidationErrors(dto);
    var n, m := "must not be null", "must not be empty";
    assert errors == [m, n, m, n, m, n];
    AlternatingCounts(errors, n, m);
  }

  /** Six alternating entries of two distinct messages hold each message three times. */
  lemma AlternatingCounts(errors: seq<string>, n: string, m: string)
    requires n != m && errors == [m, n, m, n, m, n]
    ensures multiset(errors)[n] == 3 && multiset(errors)[m] == 3
  {
  }

  /** handleBusinessException: a BAD_REQUEST whose error list is exactly the exception's message. */
  function HandleBusinessException<T>(message: string): (r: Response<T>)
    ensures r.BadRequest? && |r.errors| == 1 && r.errors[0] == message
  {
    BadRequest([message])
  }

  // ---------------------------------------------------------------- books

  class BookController {
    const service: BookService

    ghost predicate Valid()
      reads service.repository
    {
      service.repository.Valid()
    }

    constructor (service: BookService)
      ensures this.service == service
    {
      this.service := service;
    }

    /** POST /api/books: the DTO is validated, mapped to a Book and saved; the saved book
        comes back with its fields and the assigned id. */
    method Create(dto: BookDTO) returns (r: Response<BookDTO>)
      requires Valid()
      modifies service.repository
      ensures Valid()
      ensures Violations(dto) != [] ==> r == BadRequest(ValidationErrors(dto)) && unchanged(service.repository)
      ensures Violations(dto) == [] && ExistsByIsbn(old(service.repository.books), dto.isbn) ==>
                r == HandleBusinessException(DuplicatedIsbn) && unchanged(service.repository)
      ensures Violations(dto) == [] && !ExistsByIsbn(old(service.repository.books), dto.isbn) ==>
                && r.Ok? && r.body.id.Some? && r.body == dto.(id := r.body.id)
                && service.repository.books == SaveBook(old(service.repository.books), old(service.repository.nextId), ToEntity(dto))
                && service.repository.nextId == NextIdAfterSave(old(service.repository.books), old(service.repository.nextId), ToEntity(dto))
                && FindById(service.repository.books, r.body.id.value) == Some(ToEntity(r.body))
      ensures UniqueIsbns(old(service.repository.books)) ==> UniqueIsbns(service.repository.books)
    {
      if Violations(dto) != [] {
        return BadRequest(ValidationErrors(dto));
      }
      var saved := service.Save(ToEntity(dto));
      match saved
      case Failure(e) =>
        r := HandleBusinessException(e.message);
      case Success(book) =>
        r := Ok(ToDto(book));
    }

    /** GET /api/books/{id}: the book as a DTO, or NOT_FOUND. */
    function Get(id: int): (r: Response<BookDTO>)
      reads service.repository
      ensures r.Ok? || r.NotFound?
      ensures r.NotFound? <==> forall b :: b in service.repository.books ==> b.id != Some(id)
      ensures r.Ok? ==> r.body.id == Some(id) && ToEntity(r.body) in service.repository.books
    {
      match service.GetById(id)
      case Some(book) => Ok(ToDto(book))
      case None => NotFound
    }

    /** DELETE /api/books/{id}: NOT_FOUND with no delete call, or the book's row is deleted. */
    method Delete(id: int) returns (r: Response<()>)
      requires Valid()
      modifies service.repository
      ensures Valid()
      ensures r.Ok? || r.NotFound?
      ensures r.NotFound? <==> forall b :: b in old(service.repository.books) ==> b.id != Some(id)
      ensures r.NotFound? ==> unchanged(service.repository)
      ensures r.Ok? ==>
                && service.repository.books == RemoveId(old(service.repository.books), id)
                && service.repository.nextId == old(service.repository.nextId)
                && FindById(service.repository.books, id).None?
      ensures UniqueIsbns(old(service.repository.books)) ==> UniqueIsbns(service.repository.books)
    {
      var found := service.GetById(id);
      if found.None? {
        return NotFound;
      }
      var outcome := service.Delete(found.value);
      r := Ok(());
    }

    /** PUT /api/books/{id}: NOT_FOUND with no update call, or the stored book gets the DTO's
        author and title, keeps its id and isbn, and comes back as a DTO. */
    method Update(id: int, dto: BookDTO) returns (r: Response<BookDTO>)
      requires Valid()
      modifies service.repository
      ensures Valid()
      ensures r.Ok? || r.NotFound?
      ensures r.NotFound? <==> IndexOfId(old(service.repository.books), id).None?
      ensures r.NotFound? ==> unchanged(service.repository)
      ensures r.Ok? ==>
                var i := IndexOfId(old(service.repository.books), id).value;
                var before := old(service.repository.books)[i];
                && service.repository.books == old(service.repository.books)[i := before.(title := dto.title, author := dto.author)]
                && service.repository.nextId == old(service.repository.nextId)
                && r.body == BookDTO(Some(id), dto.title, dto.author, before.isbn)
      ensures UniqueIsbns(old(service.repository.books)) ==> UniqueIsbns(service.repository.books)
    {
      var found := service.GetById(id);
      if found.None? {
        return NotFound;
      }
      ghost var i := IndexOfId(service.repository.books, id).value;
      var book := found.value.(author := dto.author).(title := dto.title);
      if UniqueIsbns(service.repository.books) {
        EditKeepsUniqueIsbns(service.repository.books, service.repository.nextId, i, dto.title, dto.author);
      }
      var updated := service.Update(book);
      r := Ok(ToDto(updated.value));
    }
  }

  // ---------------------------------------------------------------- loans

  /** The DTOs of a page of loans: each loan with its book. */
  function LoanDtos(loans: seq<Loan>, books: seq<Book>): (r: seq<LoanDTO>)
    requires forall l :: l in loans ==> FindById(books, l.bookId).Some?
    ensures |r| == |loans|
    ensures forall i :: 0 <= i < |loans| ==> r[i] == ToLoanDto(loans[i], FindById(books, loans[i].bookId).value)
  {
    if loans == [] then []
    else [ToLoanDto(loans[0], FindById(books, loans[0].bookId).value)] + LoanDtos(loans[1..], books)
  }

  class LoanController {
    const service: LoanService
    const bookService: BookService

    /** The loan table joins with the same book table the book service manages. */
    ghost predicate Valid()
      reads service.repository, bookService.repository
    {
      && service.repository.Valid()
      && bookService.repository.Valid()
      && service.repository.bookRepository == bookService.repository
    }

    constructor (service: LoanService, bookService: BookService)
      ensures this.service == service && this.bookService == bookService
    {
      this.service := service;
      this.bookService := bookService;
    }

    /** POST /api/loans: the book is found by isbn, a loan of it to the customer dated today
        with `returned` unset is saved, and its id comes back. */
    method Create(dto: LoanDTO, today: int) returns (r: Response<int>)
      requires Valid()
      modifies service.repository
      ensures Valid()
      ensures !ExistsByIsbn(bookService.repository.books, dto.isbn) ==>
                r == BadRequest([BookNotFoundForIsbn]) && unchanged(service.repository)
      ensures ExistsByIsbn(bookService.repository.books, dto.isbn) ==>
                var book := FindByIsbn(bookService.repository.books, dto.isbn).value;
                && book.id.Some?
                && (ExistsByBookAndNotReturned(old(service.repository.loans), book.id.value) ==>
                      r == HandleBusinessException(AlreadyLoaned) && unchanged(service.repository))
                && (!ExistsByBookAndNotReturned(old(service.repository.loans), book.id.value) ==>
                      && r == Ok(|old(service.repository.loans)|)
                      && service.repository.loans == old(service.repository.loans)
                           + [Loan(Some(r.body), book.id.value, dto.customer, None, today, None)])
      ensures OneOutstandingPerBook(old(service.repository.loans)) ==> OneOutstandingPerBook(service.repository.loans)
    {
      var found := bookService.GetBookByIsbn(dto.isbn);
      if found.None? {
        return BadRequest([BookNotFoundForIsbn]);
      }
      var book := found.value;
      var entity := Loan(None, book.id.value, dto.customer, None, today, None);
      var saved := service.Save(entity);
      match saved
      case Failure(e) =>
        r := HandleBusinessException(e.message);
      case Success(loan) =>
        r := Ok(loan.id.value);
    }

    /** PATCH /api/loans/{id}: NOT_FOUND with no update call, or only the loan's `returned`
        is set to the requested value and the loan is stored again. */
    method ReturnBook(id: int, dto: ReturnedLoanDTO) returns (r: Response<()>)
      requires Valid()
      modifies service.repository
      ensures Valid()
      ensures r.Ok? || r.NotFound?
      ensures r.NotFound? <==> forall l :: l in old(service.repository.loans) ==> l.id != Some(id)
      ensures r.NotFound? ==> unchanged(service.repository)
      ensures r.Ok? ==>
                && 0 <= id < |old(service.repository.loans)|
                && service.repository.loans == old(service.repository.loans)[id := old(service.repository.loans)[id].(returned := dto.returned)]
      ensures dto.returned == Some(true) && OneOutstandingPerBook(old(service.repository.loans)) ==>
                OneOutstandingPerBook(service.repository.loans)
    {
      var found := service.GetById(id);
      if found.None? {
        return NotFound;
      }
      var loan := found.value.(returned := dto.returned);
      if dto.returned == Some(true) {
        ReturnKeepsOneOutstanding(service.repository.loans, loan);
      }
      var updated := service.Update(loan);
      r := Ok(());
    }

    /** GET /api/loans: the service page re-wrapped with each loan mapped to a DTO carrying its
        book, the same pageable and the same total. */
    function Find(filter: LoanFilterDTO, p: Pageable): (r: Page<LoanDTO>)
      reads service.repository, service.repository.bookRepository
      ensures var page := service.Find(filter, p);
              && r.pageable == p
              && r.totalElements == page.totalElements
              && |r.content| == |page.content|
              && forall i :: 0 <= i < |r.content| ==>
                   && FindById(service.repository.bookRepository.books, page.content[i].bookId).Some?
                   && r.content[i] == ToLoanDto(page.content[i], FindById(service.repository.bookRepository.books, page.content[i].bookId).value)
      ensures forall d :: d in r.content ==>
                && d.book.Some?
                && ((filter.isbn.Some? && d.book.value.isbn == filter.isbn) || (filter.customer.Some? && d.customer == filter.customer))
    {
      var books := service.repository.bookRepository.books;
      var page := service.Find(filter, p);
      var content := LoanDtos(page.content, books);
      PageImplKeepsTotal(LoansMatching(service.repository.loans, books, filter.isbn, filter.customer), p, content);
      assert forall d :: d in content ==> exists i :: 0 <= i < |content| && d == content[i];
      assert forall i :: 0 <= i < |page.content| ==> page.content[i] in page.content;
      PageImpl(content, p, page.totalElements)
    }
  }
}
