/** BookRepository and LoanRepository: the two tables, the save/findById/delete they inherit
    from JpaRepository, and the queries they declare. */
module Repository {
  import opened Wrappers
  import opened Domain
  import opened Paging
  import opened Seqs

  // ---------------------------------------------------------------- book table

  /** No two rows of the book table share an id. */
  ghost predicate UniqueIds(books: seq<Book>) {
    forall i, j :: 0 <= i < j < |books| ==> books[i].id != books[j].id
  }

  /** What the book table guarantees: every row has a generated id below `nextId`, and ids are unique. */
  ghost predicate BookTable(books: seq<Book>, nextId: nat) {
    && (forall b :: b in books ==> b.id.Some? && 0 <= b.id.value < nextId)
    && UniqueIds(books)
  }

  /** No two rows of the book table share an isbn (the rule BookService enforces on save). */
  ghost predicate UniqueIsbns(books: seq<Book>) {
    forall i, j :: 0 <= i < j < |books| ==> books[i].isbn != books[j].isbn
  }

  /** The position of the row whose id is `id`. */
  function IndexOfId(books: seq<Book>, id: int): (r: Option<nat>)
    ensures r.Some? ==> r.value < |books| && books[r.value].id == Some(id)
    ensures r.None? <==> forall i :: 0 <= i < |books| ==> books[i].id != Some(id)
  {
    if books == [] then None
    else if books[0].id == Some(id) then Some(0)
    else match IndexOfId(books[1..], id)
      case Some(i) => Some(i + 1)
      case None => None
  }

  /** JpaRepository.findById on the book table. */
  function FindById(books: seq<Book>, id: int): (r: Option<Book>)
    ensures r.Some? ==> r.value in books && r.value.id == Some(id)
    ensures r.None? <==> forall b :: b in books ==> b.id != Some(id)
  {
    match IndexOfId(books, id)
    case Some(i) => Some(books[i])
    case None => None
  }

  /** In a table with unique ids, findById returns the one row with that id. */
  lemma FindByIdUnique(books: seq<Book>, i: nat)
    requires UniqueIds(books) && i < |books| && books[i].id.Some?
    ensures FindById(books, books[i].id.value) == Some(books[i])
  {
  }

  /** existsByIsbn: a derived query, so a null isbn is compared with IS NULL. */
  function ExistsByIsbn(books: seq<Book>, isbn: Option<string>): (r: bool)
    ensures r <==> exists b :: b in books && b.isbn == isbn
  {
    if books == [] then false
    else
      assert forall b :: b in books <==> b == books[0] || b in books[1..];
      books[0].isbn == isbn || ExistsByIsbn(books[1..], isbn)
  }

  /** findByIsbn: the first row with that isbn. */
  function FindByIsbn(books: seq<Book>, isbn: Option<string>): (r: Option<Book>)
    ensures r.Some? ==> r.value in books && r.value.isbn == isbn
    ensures r.None? <==> !ExistsByIsbn(books, isbn)
  {
    if books == [] then None
    else if books[0].isbn == isbn then Some(books[0])
    else
      assert forall b :: b in books <==> b == books[0] || b in books[1..];
      FindByIsbn(books[1..], isbn)
  }

  /** The row that CrudRepository.save(book) overwrites: the one whose id the book carries, if stored. */
  function StoredAt(books: seq<Book>, id: Option<int>): (r: Option<nat>)
    ensures r.Some? ==> r.value < |books| && books[r.value].id == id
    ensures r.None? <==> id.None? || forall b :: b in books ==> b.id != id
  {
    if id.None? then None else IndexOfId(books, id.value)
  }

  /** The book table after CrudRepository.save(book): a book with a stored id replaces
      that row, any other book is inserted under the next generated id. */
  function SaveBook(books: seq<Book>, nextId: nat, book: Book): seq<Book> {
    match StoredAt(books, book.id)
    case Some(i) => books[i := book]
    case None => books + [book.(id := Some(nextId))]
  }

  /** The id generator after CrudRepository.save(book). */
  function NextIdAfterSave(books: seq<Book>, nextId: nat, book: Book): nat {
    if StoredAt(books, book.id).Some? then nextId else nextId + 1
  }

  /** The row CrudRepository.save(book) returns. */
  function SavedBook(books: seq<Book>, nextId: nat, book: Book): Book {
    if StoredAt(books, book.id).Some? then book else book.(id := Some(nextId))
  }

  /** Saving keeps the table well formed, keeps the book's fields, assigns an id, and
      findById then finds exactly the saved row. */
  lemma SavedBookIsFound(books: seq<Book>, nextId: nat, book: Book)
    requires BookTable(books, nextId)
    ensures var after := SaveBook(books, nextId, book);
            var saved := SavedBook(books, nextId, book);
            && BookTable(after, NextIdAfterSave(books, nextId, book))
            && saved.id.Some? && saved == book.(id := saved.id)
            && FindById(after, saved.id.value) == Some(saved)
  {
    var after := SaveBook(books, nextId, book);
    var at := StoredAt(books, book.id);
    if at.Some? {
      assert forall i :: 0 <= i < |after| && i != at.value ==> after[i] == books[i];
      assert forall b :: b in after ==> b == book || b in books;
      FindByIdUnique(after, at.value);
    } else {
      var saved := book.(id := Some(nextId));
      assert forall i :: 0 <= i < |books| ==> books[i] in books;
      assert forall b :: b in after ==> b == saved || b in books;
      FindByIdUnique(after, |books|);
    }
  }

  /** The book table after delete(book) of a book with id `id`: every row with that id is gone. */
  function RemoveId(books: seq<Book>, id: int): (r: seq<Book>)
    ensures forall b :: b in r <==> b in books && b.id != Some(id)
    ensures UniqueIds(books) ==> UniqueIds(r)
    ensures UniqueIsbns(books) ==> UniqueIsbns(r)
  {
    if books == [] then []
    else
      var rest := RemoveId(books[1..], id);
      assert forall b :: b in books <==> b == books[0] || b in books[1..];
      if books[0].id == Some(id) then rest
      else
        assert UniqueIds(books) ==> forall b :: b in books[1..] ==> b.id != books[0].id;
        assert UniqueIsbns(books) ==> forall b :: b in books[1..] ==> b.isbn != books[0].isbn;
        [books[0]] + rest
  }

  /** After delete, the book is no longer found by its id, and the table stays well formed. */
  lemma DeletedBookIsNotFound(books: seq<Book>, nextId: nat, id: int)
    requires BookTable(books, nextId)
    ensures BookTable(RemoveId(books, id), nextId)
    ensures FindById(RemoveId(books, id), id).None?
  {
  }

  /** The book table of a BookRepository. */
  class BookRepository {
    var books: seq<Book>
    var nextId: nat

    ghost predicate Valid()
      reads this
    {
      BookTable(books, nextId)
    }

    constructor ()
      ensures Valid() && books == []
    {
      books := [];
      nextId := 0;
    }

    /** CrudRepository.save. */
    method Save(book: Book) returns (saved: Book)
      requires Valid()
      modifies this
      ensures Valid()
      ensures books == SaveBook(old(books), old(nextId), book)
      ensures nextId == NextIdAfterSave(old(books), old(nextId), book)
      ensures saved == SavedBook(old(books), old(nextId), book)
      ensures saved.id.Some? && saved == book.(id := saved.id)
      ensures FindById(books, saved.id.value) == Some(saved)
    {
      SavedBookIsFound(books, nextId, book);
      var at := StoredAt(books, book.id);
      if at.Some? {
        saved := book;
        books := books[at.value := book];
      } else {
        saved := book.(id := Some(nextId));
        books := books + [saved];
        nextId := nextId + 1;
      }
    }

    /** CrudRepository.delete: a book without an id is ignored, otherwise its row is removed. */
    method Delete(book: Book)
      requires Valid()
      modifies this
      ensures Valid() && nextId == old(nextId)
      ensures books == if book.id.Some? then RemoveId(old(books), book.id.value) else old(books)
      ensures book.id.Some? ==> FindById(books, book.id.value).None?
    {
      if book.id.Some? {
        DeletedBookIsNotFound(books, nextId, book.id.value);
        books := RemoveId(books, book.id.value);
      }
    }
  }

  // ---------------------------------------------------------------- loan table

  /** Loans are never deleted, so the loan table holds its rows in id order: row i has id i. */
  ghost predicate LoanTable(loans: seq<Loan>) {
    forall i :: 0 <= i < |loans| ==> loans[i].id == Some(i)
  }

  /** 1 when the loan is an outstanding loan of the book, 0 otherwise. */
  function Contribution(loan: Loan, bookId: int): nat {
    if loan.bookId == bookId && Outstanding(loan) then 1 else 0
  }

  /** `count(l.id)` of existsByBookAndNotReturned: the loans of the book with `returned` null or false. */
  function OutstandingCount(loans: seq<Loan>, bookId: int): nat {
    if loans == [] then 0
    else OutstandingCount(loans[..|loans| - 1], bookId) + Contribution(loans[|loans| - 1], bookId)
  }

  /** The count is positive exactly when some loan of the book is outstanding. */
  lemma {:induction false} CountPositiveIff(loans: seq<Loan>, bookId: int)
    ensures OutstandingCount(loans, bookId) > 0 <==> exists l :: l in loans && l.bookId == bookId && Outstanding(l)
  {
    if loans != [] {
      var init := loans[..|loans| - 1];
      CountPositiveIff(init, bookId);
      assert loans == init + [loans[|loans| - 1]];
      assert forall l :: l in loans <==> l in init || l == loans[|loans| - 1];
    }
  }

  /** Appending a loan adds its own contribution to every book's count. */
  lemma CountAppend(loans: seq<Loan>, loan: Loan, bookId: int)
    ensures OutstandingCount(loans + [loan], bookId) == OutstandingCount(loans, bookId) + Contribution(loan, bookId)
  {
    assert (loans + [loan])[..|loans|] == loans;
  }

  /** Replacing row k trades its contribution for that of the new row. */
  lemma {:induction false} CountReplace(loans: seq<Loan>, k: nat, loan: Loan, bookId: int)
    requires k < |loans|
    ensures OutstandingCount(loans[k := loan], bookId) + Contribution(loans[k], bookId)
         == OutstandingCount(loans, bookId) + Contribution(loan, bookId)
  {
    var n := |loans| - 1;
    if k == n {
      assert loans[k := loan][..n] == loans[..n];
    } else {
      assert loans[k := loan][..n] == loans[..n][k := loan];
      CountReplace(loans[..n], k, loan, bookId);
    }
  }

  /** The central rule: at most one loan per book has `returned` null or false. */
  ghost predicate OneOutstandingPerBook(loans: seq<Loan>) {
    forall bookId :: OutstandingCount(loans, bookId) <= 1
  }

  /** existsByBookAndNotReturned(book): `count(l.id) > 0` over the loans of the book whose
      `returned` is null or false. */
  function ExistsByBookAndNotReturned(loans: seq<Loan>, bookId: int): (r: bool)
    ensures r <==> exists l :: l in loans && l.bookId == bookId && Outstanding(l)
  {
    CountPositiveIff(loans, bookId);
    OutstandingCount(loans, bookId) > 0
  }

  /** A loan that was returned never makes existsByBookAndNotReturned true. */
  lemma ReturnedLoanIsNotOutstanding(loans: seq<Loan>, loan: Loan, bookId: int)
    requires loan.returned == Some(true)
    ensures ExistsByBookAndNotReturned(loans + [loan], bookId) == ExistsByBookAndNotReturned(loans, bookId)
  {
    assert forall l :: l in loans + [loan] <==> l in loans || l == loan;
  }

  /** The loan table after CrudRepository.save(loan): a loan whose id names a row replaces
      it, any other loan is appended under the next id. */
  function SaveLoan(loans: seq<Loan>, loan: Loan): seq<Loan> {
    if loan.id.Some? && 0 <= loan.id.value < |loans| then loans[loan.id.value := loan]
    else loans + [loan.(id := Some(|loans|))]
  }

  /** A freshly persisted loan whose `returned` is unset makes existsByBookAndNotReturned
      true for its book. */
  lemma PersistedLoanIsOutstanding(loans: seq<Loan>, loan: Loan)
    requires loan.returned.None?
    ensures ExistsByBookAndNotReturned(SaveLoan(loans, loan), loan.bookId)
  {
    var after := SaveLoan(loans, loan);
    if loan.id.Some? && 0 <= loan.id.value < |loans| {
      assert after[loan.id.value] in after;
    } else {
      assert after[|loans|] in after;
    }
  }

  /** The loan table of a LoanRepository. `bookRepository` is the book table that
      findByBookIsbnOrCustomer joins with. */
  class LoanRepository {
    var loans: seq<Loan>
    const bookRepository: BookRepository

    ghost predicate Valid()
      reads this
    {
      LoanTable(loans)
    }

    constructor (bookRepository: BookRepository)
      ensures Valid() && loans == [] && this.bookRepository == bookRepository
    {
      loans := [];
      this.bookRepository := bookRepository;
    }

    /** JpaRepository.findById on the loan table. */
    function FindById(id: int): (r: Option<Loan>)
      reads this
      requires Valid()
      ensures r.Some? ==> r.value in loans && r.value.id == Some(id)
      ensures r.None? <==> forall l :: l in loans ==> l.id != Some(id)
    {
      if 0 <= id < |loans| then Some(loans[id]) else None
    }

    /** CrudRepository.save. */
    method Save(loan: Loan) returns (saved: Loan)
      requires Valid()
      modifies this
      ensures Valid()
      ensures loans == SaveLoan(old(loans), loan)
      ensures saved.id.Some? && saved == loan.(id := saved.id)
      ensures FindById(saved.id.value) == Some(saved)
    {
      if loan.id.Some? && 0 <= loan.id.value < |loans| {
        saved := loan;
        loans := loans[loan.id.value := loan];
      } else {
        saved := loan.(id := Some(|loans|));
        loans := loans + [saved];
      }
    }
  }

  // ---------------------------------------------------------------- loan queries

  /** The WHERE clause of findByBookIsbnOrCustomer, after the join with the book table:
      `b.isbn = :isbn or l.customer = :customer`. A null parameter compares as unknown in SQL,
      so an absent field never matches. */
  predicate MatchesIsbnOrCustomer(loan: Loan, books: seq<Book>, isbn: Option<string>, customer: Option<string>) {
    match FindById(books, loan.bookId)
    case None => false
    case Some(book) => (isbn.Some? && book.isbn == isbn) || (customer.Some? && loan.customer == customer)
  }

  /** The rows of findByBookIsbnOrCustomer before paging. */
  function LoansMatching(loans: seq<Loan>, books: seq<Book>, isbn: Option<string>, customer: Option<string>): (r: seq<Loan>)
    ensures forall l :: l in r <==> l in loans && MatchesIsbnOrCustomer(l, books, isbn, customer)
  {
    Filter(loans, MatchFilter(books, isbn, customer))
  }

  /** MatchesIsbnOrCustomer as the predicate the filter applies. */
  function MatchFilter(books: seq<Book>, isbn: Option<string>, customer: Option<string>): Loan -> bool {
    (l: Loan) => MatchesIsbnOrCustomer(l, books, isbn, customer)
  }

  /** findByBookIsbnOrCustomer(isbn, customer, pageable). */
  function FindByBookIsbnOrCustomer(loans: seq<Loan>, books: seq<Book>, isbn: Option<string>, customer: Option<string>, p: Pageable): (r: Page<Loan>)
    ensures r.pageable == p && |r.content| <= p.size
    ensures forall l :: l in r.content ==> l in loans && MatchesIsbnOrCustomer(l, books, isbn, customer)
    ensures r.totalElements == |LoansMatching(loans, books, isbn, customer)|
  {
    Paginate(LoansMatching(loans, books, isbn, customer), p)
  }

  /** Rows with distinct ids are distinct. */
  lemma LoanTableDistinct(loans: seq<Loan>)
    requires LoanTable(loans)
    ensures Distinct(loans)
  {
    forall i, j | 0 <= i < j < |loans| ensures loans[i] != loans[j] {
      assert loans[i].id != loans[j].id;
    }
  }

  /** The total of findByBookIsbnOrCustomer counts every matching loan of the table once. */
  lemma FindTotalCountsMatches(loans: seq<Loan>, books: seq<Book>, isbn: Option<string>, customer: Option<string>, p: Pageable)
    requires LoanTable(loans)
    ensures FindByBookIsbnOrCustomer(loans, books, isbn, customer, p).totalElements
         == |set l | l in loans && MatchesIsbnOrCustomer(l, books, isbn, customer)|
  {
    LoanTableDistinct(loans);
    var keep := MatchFilter(books, isbn, customer);
    FilterCardinality(loans, keep);
    var matching := set l | l in loans && MatchesIsbnOrCustomer(l, books, isbn, customer);
    assert matching == Satisfying(loans, keep);
  }

  /** The single-loan scenario: a loan of a book with isbn "001" to customer "Pedro",
      searched by both, comes back once on page 0 of size 10 with total 1. */
  lemma FindSingleLoanByIsbnAndCustomer(book: Book, loan: Loan)
    requires book.id == Some(loan.bookId) && book.isbn == Some("001") && loan.customer == Some("Pedro")
    ensures FindByBookIsbnOrCustomer([loan], [book], Some("001"), Some("Pedro"), PageRequest(0, 10))
         == Page([loan], PageRequest(0, 10), 1)
  {
    assert FindById([book], loan.bookId) == Some(book);
    assert MatchesIsbnOrCustomer(loan, [book], Some("001"), Some("Pedro"));
    var m := LoansMatching([loan], [book], Some("001"), Some("Pedro"));
    assert m == [loan];
  }

  /** findByBook(book, pageable): the loans that reference the book. */
  function FindByBook(loans: seq<Loan>, bookId: Option<int>, p: Pageable): (r: Page<Loan>)
    ensures r.pageable == p && |r.content| <= p.size
    ensures forall l :: l in r.content ==> l in loans && Some(l.bookId) == bookId
    ensures r.totalElements == |Filter(loans, (l: Loan) => Some(l.bookId) == bookId)|
  {
    Paginate(Filter(loans, (l: Loan) => Some(l.bookId) == bookId), p)
  }

  /** findByLoanDateLessThanAndNotReturned(date): the outstanding loans dated strictly before `date`. */
  function FindByLoanDateLessThanAndNotReturned(loans: seq<Loan>, date: int): (r: seq<Loan>)
    ensures forall l :: l in r <==> l in loans && Outstanding(l) && l.loanDate < date
  {
    Filter(loans, (l: Loan) => Outstanding(l) && l.loanDate < date)
  }
}
