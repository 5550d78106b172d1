/** The transport shapes: BookDTO with its bean-validation constraints, LoanDTO,
    LoanFilterDTO and ReturnedLoanDTO, and the ModelMapper field copies between them and
    the entities. */
module Dto {
  import opened Wrappers
  import opened Domain
  import opened Seqs

  /** BookDTO. `id` carries no constraint; title, author and isbn are `@NotEmpty @NotNull`. */
  datatype BookDTO = BookDTO(id: Option<int>, title: Option<string>, author: Option<string>, isbn: Option<string>)

  /** The request body of POST /api/loans and the entries of GET /api/loans. */
  datatype LoanDTO = LoanDTO(id: Option<int>, isbn: Option<string>, customer: Option<string>, book: Option<BookDTO>)

  /** The query parameters of GET /api/loans. */
  datatype LoanFilterDTO = LoanFilterDTO(isbn: Option<string>, customer: Option<string>)

  /** The request body of PATCH /api/loans/{id}. */
  datatype ReturnedLoanDTO = ReturnedLoanDTO(returned: Option<bool>)

  datatype Constraint = NotEmpty | NotNull

  /** One failed constraint on one field. */
  datatype Violation = Violation(field: string, constraint: Constraint)

  /** The violations of `@NotEmpty @NotNull` on a field holding `value`: `@NotNull` fails on
      null, `@NotEmpty` fails on null and on the empty string. */
  function FieldViolations(field: string, value: Option<string>): (r: seq<Violation>)
    ensures Violation(field, NotNull) in r <==> value.None?
    ensures Violation(field, NotEmpty) in r <==> value.None? || value.value == ""
    ensures forall v :: v in r ==> v.field == field
    ensures Distinct(r)
  {
    match value
    case None => [Violation(field, NotEmpty), Violation(field, NotNull)]
    case Some(s) => if s == "" then [Violation(field, NotEmpty)] else []
  }

  /** The violations bean validation reports for a BookDTO (in field order; the validator
      itself reports them as an unordered set). */
  function Violations(dto: BookDTO): (r: seq<Violation>)
    ensures r == [] <==> (
      && dto.title.Some? && dto.title.value != ""
      && dto.author.Some? && dto.author.value != ""
      && dto.isbn.Some? && dto.isbn.value != "")
    ensures forall v :: v in r ==> v.field in {"title", "author", "isbn"}
  {
    FieldViolations("title", dto.title) + FieldViolations("author", dto.author) + FieldViolations("isbn", dto.isbn)
  }

  /** The `id` field does not take part in validation. */
  lemma IdIsUnconstrained(dto: BookDTO, id: Option<int>)
    ensures Violations(dto.(id := id)) == Violations(dto)
  {
  }

  /** An empty BookDTO fails both constraints on each of its three fields: six violations. */
  lemma EmptyDtoHasSixViolations(id: Option<int>)
    ensures |Violations(BookDTO(id, None, None, None))| == 6
    ensures forall f :: f in {"title", "author", "isbn"} ==>
              Violation(f, NotNull) in Violations(BookDTO(id, None, None, None))
              && Violation(f, NotEmpty) in Violations(BookDTO(id, None, None, None))
  {
    var r := Violations(BookDTO(id, None, None, None));
    assert r[..2] == FieldViolations("title", None);
    assert r[2..4] == FieldViolations("author", None);
    assert r[4..] == FieldViolations("isbn", None);
  }

  /** The default message of a violated constraint (Hibernate Validator's English bundle). */
  function Message(v: Violation): string {
    match v.constraint
    case NotNull => "must not be null"
    case NotEmpty => "must not be empty"
  }

  /** ModelMapper from BookDTO to Book: a field-by-field copy. */
  function ToEntity(dto: BookDTO): Book {
    Book(dto.id, dto.title, dto.author, dto.isbn)
  }

  /** ModelMapper from Book to BookDTO: a field-by-field copy. */
  function ToDto(book: Book): BookDTO {
    BookDTO(book.id, book.title, book.author, book.isbn)
  }

  /** The two copies are inverse to each other. */
  lemma MapperRoundTrip(book: Book, dto: BookDTO)
    ensures ToEntity(ToDto(book)) == book && ToDto(ToEntity(dto)) == dto
  {
  }

  /** One entry of GET /api/loans: ModelMapper copies the loan's same-named properties, id
      and customer (the loan has no isbn of its own, so `isbn` stays null); the controller
      then sets the loan's book. */
  function ToLoanDto(loan: Loan, book: Book): LoanDTO {
    LoanDTO(loan.id, None, loan.customer, Some(ToDto(book)))
  }
}
