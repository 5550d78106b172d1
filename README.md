# library-api: verified model of the book and loan domain

This project models the domain core of library-api, a Spring Boot REST service. The service
keeps a catalogue of books and lends them to customers. The model covers:

- **Book table** (`Repository.BookRepository`): save, delete, lookup by id and by isbn.
- **Book service contract** (`Service.BookService`):
  - refuses a duplicate isbn with "ISBN já cadastrado.";
  - refuses delete and update of a book without an id.
- **Book controller** (`Resource.BookController`):
  - validates a `BookDTO`: `@NotNull @NotEmpty` on title, author and isbn;
  - maps the DTO to a `Book` and back;
  - update overwrites only title and author;
  - an unknown id gives NOT_FOUND.
- **Loan table** (`Repository.LoanRepository`) and its two JPQL queries:
  - `existsByBookAndNotReturned`, a count of loans of the book whose `returned` is null or false;
  - `findByBookIsbnOrCustomer`, a join with the book table and an OR filter, paged.
- **Loan service** (`Service.LoanService`):
  - a check-then-insert `save` that refuses a second outstanding loan of a book with "Book already loaned";
  - an unchecked `update`;
  - the paged `find`;
  - `getAllLateLoans`: the outstanding loans dated strictly before today − 4 days.
- **Loan controller** (`Resource.LoanController`):
  - `create` finds the book by isbn, builds the loan and saves it;
  - `returnBook` sets only `returned`;
  - `find` turns each loan of the page into a `LoanDTO` carrying its book.
- **Overdue scan** (`Service.ScheduledService`): the emails of the late loans, sent in one call to the mail sender.

The central property is the rule "at most one outstanding loan per book" (`Repository.OneOutstandingPerBook`):

- a loan is outstanding while `returned` is null or false;
- the service's and controller's `save`/`create` keep the rule;
- `returnBook` keeps it when it sets `returned` to true;
- `Service.UnreturnCanBreakOneOutstanding` proves that setting a returned loan back to null or false can break it, because `update` checks nothing.

Modelling choices:

- **Nulls and errors:** a Java null is `None` of `Wrappers.Option`. A thrown exception is the
  `Failure`/`Fail` of `Result`/`Outcome`. HTTP outcomes are `Resource.Response`:
  `Ok | NotFound | BadRequest(errors)`.
- **Dates:** a date is an integer day number. The current day is a parameter (`today`).
- **Tables:**
  - The loan table is a sequence whose row i has id i. Loans are never deleted.
  - The book table is a sequence with unique ids and an id counter.
- **`CrudRepository.save`:** a row whose id is stored overwrites that row. Any other row is
  inserted under the next generated id.
- **Equality on a null parameter:**
  - In the JPQL queries an SQL comparison with a null parameter is unknown, so an absent filter field never matches.
  - The derived queries `existsByIsbn` and `findByIsbn` compare a null isbn with `IS NULL`.

## Model

| member | source | states |
|---|---|---|
| Paging.Paginate | src/main/java/br/com/pedrodavi/libraryapi/model/repository/LoanRepository.java:19 | a page keeps the pageable, counts every row of the query in its total, holds at most `size` rows, and holds exactly the rows from the page's offset on, in query order |
| Paging.PageImplKeepsTotal | src/main/java/br/com/pedrodavi/libraryapi/api/resource/LoanController.java:72 | re-wrapping a query page's content (or content of the same length) in a PageImpl keeps the query's total |
| Repository.FindById | src/main/java/br/com/pedrodavi/libraryapi/model/repository/BookRepository.java:8 | findById returns a stored book with that id, and returns empty exactly when no book has that id |
| Repository.FindByIdUnique | src/main/java/br/com/pedrodavi/libraryapi/model/repository/BookRepository.java:8 | with unique ids, findById of a row's id returns that row |
| Repository.ExistsByIsbn | src/main/java/br/com/pedrodavi/libraryapi/model/repository/BookRepository.java:10 | true exactly when some stored book has that isbn |
| Repository.FindByIsbn | src/main/java/br/com/pedrodavi/libraryapi/model/repository/BookRepository.java:12 | returns a stored book with that isbn, and returns empty exactly when existsByIsbn is false |
| Repository.SavedBookIsFound | src/test/java/br/com/pedrodavi/libraryapi/model/repository/BookRepositoryTest.java:53-64 | saving keeps the table well formed, assigns an id, keeps the book's other fields, and findById then finds the saved book |
| Repository.RemoveId | src/main/java/br/com/pedrodavi/libraryapi/model/repository/BookRepository.java:8 | after delete, the table holds exactly the old rows whose id differs; unique ids and unique isbns are kept |
| Repository.DeletedBookIsNotFound | src/test/java/br/com/pedrodavi/libraryapi/model/repository/BookRepositoryTest.java:70-75 | after delete the book is no longer found by its id, and the table stays well formed |
| Repository.BookRepository.Save | src/main/java/br/com/pedrodavi/libraryapi/model/repository/BookRepository.java:8 | save overwrites the row of a stored id or inserts under a fresh id, returns the book with its id, and findById finds it |
| Repository.BookRepository.Delete | src/main/java/br/com/pedrodavi/libraryapi/model/repository/BookRepository.java:8 | delete removes the book's row, leaves the id counter alone, and ignores a book without an id |
| Repository.CountPositiveIff | src/main/java/br/com/pedrodavi/libraryapi/model/repository/LoanRepository.java:14-16 | the count of the book's loans with `returned` null or false is positive exactly when such a loan exists |
| Repository.ExistsByBookAndNotReturned | src/main/java/br/com/pedrodavi/libraryapi/model/repository/LoanRepository.java:14-16 | "count > 0" is true exactly when some loan of the book has `returned` null or false |
| Repository.ReturnedLoanIsNotOutstanding | src/main/java/br/com/pedrodavi/libraryapi/model/repository/LoanRepository.java:15 | a loan with `returned = true` never makes existsByBookAndNotReturned true |
| Repository.PersistedLoanIsOutstanding | src/test/java/br/com/pedrodavi/libraryapi/model/repository/LoanRepositoryTest.java:35-43 | after saving a loan with `returned` unset, existsByBookAndNotReturned is true for its book |
| Repository.LoanRepository.FindById | src/main/java/br/com/pedrodavi/libraryapi/model/repository/LoanRepository.java:11 | findById returns a stored loan with that id, and returns empty exactly when none has it |
| Repository.LoanRepository.Save | src/main/java/br/com/pedrodavi/libraryapi/model/repository/LoanRepository.java:11 | save overwrites the row of a stored id or appends under the next id, and findById then finds the returned loan |
| Repository.LoansMatching | src/main/java/br/com/pedrodavi/libraryapi/model/repository/LoanRepository.java:18 | a loan is in the result exactly when it is stored and its book has the isbn or its customer is the customer |
| Repository.FindByBookIsbnOrCustomer | src/main/java/br/com/pedrodavi/libraryapi/model/repository/LoanRepository.java:18-19 | the page keeps the pageable and holds at most `size` loans, each stored and matching; the total is the number of matches |
| Repository.FindTotalCountsMatches | src/main/java/br/com/pedrodavi/libraryapi/model/repository/LoanRepository.java:18-19 | the total equals the number of distinct stored loans that match |
| Repository.FindSingleLoanByIsbnAndCustomer | src/test/java/br/com/pedrodavi/libraryapi/model/repository/LoanRepositoryTest.java:55-61 | one loan matching both isbn "001" and customer "Pedro" comes back once: page 0, size 10, total 1 |
| Repository.FindByBook | src/main/java/br/com/pedrodavi/libraryapi/service/impl/LoanServiceImpl.java:51 | every loan on the page is stored and references the given book |
| Repository.FindByLoanDateLessThanAndNotReturned | src/main/java/br/com/pedrodavi/libraryapi/service/impl/LoanServiceImpl.java:58 | a loan is in the result exactly when it is stored, outstanding and dated strictly before the date |
| Dto.FieldViolations | src/main/java/br/com/pedrodavi/libraryapi/api/dto/BookDTO.java:19-21 | @NotNull fails exactly on null; @NotEmpty fails exactly on null or ""; each constraint is reported once |
| Dto.Violations | src/main/java/br/com/pedrodavi/libraryapi/api/dto/BookDTO.java:19-29 | no violation exactly when title, author and isbn are all non-null and non-empty; only those three fields are named |
| Dto.IdIsUnconstrained | src/main/java/br/com/pedrodavi/libraryapi/api/dto/BookDTO.java:17 | the id takes no part in validation |
| Dto.EmptyDtoHasSixViolations | src/test/java/br/com/pedrodavi/libraryapi/api/resource/BookControllerTest.java:86-95 | a DTO with all three fields null has six violations, both constraints on each field |
| Dto.MapperRoundTrip | src/main/java/br/com/pedrodavi/libraryapi/api/resource/BookController.java:32-34 | the DTO-to-entity and entity-to-DTO copies are inverse to each other |
| Service.SaveKeepsUniqueIsbns | src/test/java/br/com/pedrodavi/libraryapi/service/BookServiceTest.java:63-76 | storing a book whose isbn is not yet stored keeps isbns unique |
| Service.EditKeepsUniqueIsbns | src/main/java/br/com/pedrodavi/libraryapi/api/resource/BookController.java:53-58 | replacing title and author of a stored book overwrites its own row and keeps isbns unique |
| Service.BookService.Save | src/test/java/br/com/pedrodavi/libraryapi/service/BookServiceTest.java:48-76 | fails with "ISBN já cadastrado." and stores nothing exactly when the isbn is already stored; otherwise stores the book and returns it with an id and its fields unchanged; keeps isbns unique |
| Service.BookService.GetById | src/test/java/br/com/pedrodavi/libraryapi/service/BookServiceTest.java:81-103 | returns the stored book with that id, or empty exactly when there is none |
| Service.BookService.GetBookByIsbn | src/main/java/br/com/pedrodavi/libraryapi/api/resource/LoanController.java:40-42 | returns a stored book with that isbn, or empty exactly when there is none |
| Service.BookService.Delete | src/test/java/br/com/pedrodavi/libraryapi/service/BookServiceTest.java:106-119 | a book without an id is refused and nothing is deleted; otherwise its row is deleted, it is no longer found, and the id counter is kept, so no id is handed out again |
| Service.BookService.Update | src/test/java/br/com/pedrodavi/libraryapi/service/BookServiceTest.java:122-146 | a book without an id is refused and nothing is saved; otherwise the book is stored and returned with its id |
| Service.SaveKeepsOneOutstanding | src/main/java/br/com/pedrodavi/libraryapi/service/impl/LoanServiceImpl.java:27-32 | saving a loan whose book has no outstanding loan keeps at most one outstanding loan per book |
| Service.ReturnKeepsOneOutstanding | src/main/java/br/com/pedrodavi/libraryapi/service/impl/LoanServiceImpl.java:40-42 | an update that only sets `returned := true` never increases any book's outstanding count, so it keeps the rule |
| Service.UnreturnCanBreakOneOutstanding | src/main/java/br/com/pedrodavi/libraryapi/api/resource/LoanController.java:58-59 | setting a returned loan back to null or false while its book is out again leaves two outstanding loans of that book |
| Service.LateLoanCutoff | src/main/java/br/com/pedrodavi/libraryapi/service/impl/LoanServiceImpl.java:55-59 | a loan dated today − 4 is not late, an outstanding one dated today − 5 is, and a returned loan never is |
| Service.LoanService.Save | src/main/java/br/com/pedrodavi/libraryapi/service/impl/LoanServiceImpl.java:27-32 | fails with "Book already loaned" and changes nothing exactly when the book has an outstanding loan; otherwise stores the loan and returns it with its id; keeps at most one outstanding loan per book |
| Service.LoanService.GetById | src/main/java/br/com/pedrodavi/libraryapi/service/impl/LoanServiceImpl.java:35-37 | returns the stored loan with that id, or empty exactly when there is none; changes nothing |
| Service.LoanService.Update | src/main/java/br/com/pedrodavi/libraryapi/service/impl/LoanServiceImpl.java:40-42 | stores the loan as given, with no availability check, and returns it with its id |
| Service.LoanService.Find | src/main/java/br/com/pedrodavi/libraryapi/service/impl/LoanServiceImpl.java:45-47 | the page holds at most `size` stored loans matching the filter's isbn or customer; its total is the number of matches |
| Service.LoanService.GetLoansByBook | src/main/java/br/com/pedrodavi/libraryapi/service/impl/LoanServiceImpl.java:50-52 | returns only stored loans of the given book, at most `size` of them |
| Service.LoanService.GetAllLateLoans | src/main/java/br/com/pedrodavi/libraryapi/service/impl/LoanServiceImpl.java:55-59 | a loan is returned exactly when it is stored, outstanding, and dated strictly before today − 4 |
| Service.EmailService.SendMails | src/main/java/br/com/pedrodavi/libraryapi/service/ScheduledService.java:28 | each call is recorded once, with its body and recipients |
| Service.Recipients | src/main/java/br/com/pedrodavi/libraryapi/service/ScheduledService.java:27 | one recipient per late loan, in order: the i-th is the email of the i-th late loan |
| Service.RecipientsComeFromLateLoans | src/main/java/br/com/pedrodavi/libraryapi/service/ScheduledService.java:26-27 | every recipient is the email of a stored, outstanding loan dated before today − 4 |
| Service.ScheduledService.SendMailToLateLoans | src/main/java/br/com/pedrodavi/libraryapi/service/ScheduledService.java:25-29 | each run makes exactly one send, with the configured body and the emails of all late loans, even when there are none |
| Resource.ValidationErrors | src/main/java/br/com/pedrodavi/libraryapi/api/resource/BookController.java:61-66 | one error message per violation, in order; no errors exactly when no violations |
| Resource.EmptyDtoGetsSixErrors | src/test/java/br/com/pedrodavi/libraryapi/api/resource/BookControllerTest.java:86-95 | an all-null BookDTO is answered with six errors: three null and three empty messages |
| Resource.HandleBusinessException | src/main/java/br/com/pedrodavi/libraryapi/api/resource/BookController.java:68-72 | a business error becomes a BAD_REQUEST whose error list is exactly its one message |
| Resource.BookController.Create | src/main/java/br/com/pedrodavi/libraryapi/api/resource/BookController.java:29-35 | an invalid DTO gets its validation errors and changes nothing; a duplicate isbn gets exactly "ISBN já cadastrado." and changes nothing; otherwise the table is the old one with exactly the DTO's book saved, and the response carries the DTO's fields with the assigned id, under which the book is stored |
| Resource.BookController.Get | src/main/java/br/com/pedrodavi/libraryapi/api/resource/BookController.java:37-42 | NOT_FOUND exactly when no book has the id; otherwise the stored book with that id, as a DTO |
| Resource.BookController.Delete | src/main/java/br/com/pedrodavi/libraryapi/api/resource/BookController.java:44-49 | NOT_FOUND with no change exactly when no book has the id; otherwise the book's row is deleted and the id counter is kept |
| Resource.BookController.Update | src/main/java/br/com/pedrodavi/libraryapi/api/resource/BookController.java:51-59 | NOT_FOUND with no change for an unknown id; otherwise only that book's title and author change, its id and isbn stay, the id counter is kept, and isbns stay unique |
| Resource.LoanDtos | src/main/java/br/com/pedrodavi/libraryapi/api/resource/LoanController.java:65-71 | one DTO per loan, in order, each carrying that loan's book |
| Resource.LoanController.Create | src/main/java/br/com/pedrodavi/libraryapi/api/resource/LoanController.java:36-52 | unknown isbn: "Book not found for passed Isbn" and no save; book already out: exactly "Book already loaned" and no change; otherwise the loan of that book to the customer, dated today with `returned` unset, is appended and its id returned; keeps at most one outstanding loan per book |
| Resource.LoanController.ReturnBook | src/main/java/br/com/pedrodavi/libraryapi/api/resource/LoanController.java:54-60 | NOT_FOUND with no update exactly when no loan has the id; otherwise only that loan's `returned` becomes the requested value; returning with true keeps the rule |
| Resource.LoanController.Find | src/main/java/br/com/pedrodavi/libraryapi/api/resource/LoanController.java:62-73 | same pageable, same total and same length and order as the service page; each entry is its loan's DTO with its book, and matches the filter's isbn or customer |

## Left out

- Concurrency. The check-then-insert of `LoanServiceImpl.save` is modelled as one sequential step, so its transactional atomicity is not modelled.
- Scheduling. The cron expression and the timer of `ScheduledService` are left out. A run is one call with `today` as a parameter.
- Clock and calendar. `LocalDate.now()` and date arithmetic become integer day numbers.
- The mail sender. `EmailServiceImpl` calls JavaMailSender; the model only records each `sendMails` call. The application bootstrap is left out as well.
- Framework plumbing. Spring wiring, JSON binding and HTTP status codes are not modelled. ModelMapper becomes plain field copies.
- Error messages of the validator. The ApiErrors class is not part of this model. Validation messages are taken as the validator's English defaults ("must not be null", "must not be empty").
- Controller-level error handling of LoanController. LoanController has no handler of its own for its BusinessException or its BAD_REQUEST reason. The error list `[message]` follows what its tests expect.
- A filter with both isbn and customer absent. The model follows SQL semantics: a null parameter never matches, so `Repository.LoansMatching` yields no loans in that case. No lemma states this case, and the source's tests do not exercise it.
- Deleting a book that loans still reference. In the source, `Loan.book` is a mapped association (the queries join `l.book`), so the database's foreign key would refuse such a delete and DELETE /api/books/{id} would fail. Repository.BookRepository.Delete, Service.BookService.Delete and Resource.BookController.Delete do not see the loan table: the model lets the delete succeed and leaves those loans with a `bookId` that names no book.
- Order of validation errors. The validator reports violations as an unordered set. `Dto.Violations`, `Resource.ValidationErrors` and the BAD_REQUEST of Resource.BookController.Create list them in field order (title, author, isbn), which is the model's own choice; only their multiset is fixed by the source.
- The `isbn` of each LoanDTO in GET /api/loans. The Loan entity is not part of this model. Dto.ToLoanDto copies only the properties named alike on both sides (id and customer), so `isbn` stays null; the book's isbn is reachable through the entry's `book`.
- Paging.Paginate: the query has no ORDER BY. The model keeps table order, but no property relies on element order within a page.
- Repository.FindByIsbn returns the first book with the isbn. With duplicate isbns Spring would throw. Service.BookService.Save keeps isbns unique, so the case does not arise through it.
- Generated ids start at 0 and count up; the database's id values are not modelled.
- Unseen code. The Book and Loan entities, BookServiceImpl, LoanDTO, and the declarations of `findByBook`, `findByLoanDateLessThanAndNotReturned` and `getBookByIsbn` are not part of this model. They are modelled from their uses; BookService follows the service tests.
- Interface mismatches. `LoanService` does not declare `getAllLateLoans`, and `BookService` does not declare `getBookByIsbn`. The model gives both services the operations that LoanServiceImpl and LoanController use.
- `BookService.find` appears only in the service tests and in no interface. It is not modelled.
- Email of a new loan. The loan that LoanController.create builds has a null email, as the builder call leaves it.
- The one-outstanding-loan rule after returnBook is proved only when `returned` is set to true. For any other value the rule can break, as `Service.UnreturnCanBreakOneOutstanding` shows.
