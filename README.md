# Book manager service, modelled in Dafny

This project models the core of a small CRUD service for `Book` records:
the service layer (`BookManagerServiceImpl`), the repository it delegates to
(`BookManagerRepository`, a `CrudRepository<Book, Long>` plus one query), and
the `Book` entity with its `UniqueTitleAndAuthor` table constraint.

- `wrappers.dfy` (module `Wrappers`): `Option`, `Result` and `Outcome`, standing
  for `Optional`, nullable ids and thrown exceptions.
- `book.dfy` (module `BookModel`): the `Book` record (id, title, description,
  author, genre), the closed `Genre` enumeration, and the (title, author) pair
  the constraint compares.
- `repository.dfy` (module `BookRepository`): the table as a class `BookTable`
  holding a map from id to book, the list of ids in `findAll` order, and the
  id generator. The table invariant `Wellformed` says every row carries its
  own key, every key came from the generator, and no two rows share a
  (title, author) pair. `save` distinguishes an insert (no id, or an id the
  table does not hold: a fresh key is generated) from an update (an id the
  table holds: the row is overwritten in full), and refuses either write when
  another row already holds the pair, as the database constraint does.
  `isUniqueBook(author, title)` is modelled as the count the query computes.
- `service.dfy` (module `BookService`): the class `BookManagerService`, which
  receives its repository at construction, and its five operations. Failures
  are the datatype `ServiceError`: `NotFound(id)`, `AlreadyExists(title,
  author)`, and `StoreFailure`, a write the table refused.

Two consequences of the code that the contracts make explicit:

- `updateBookById` performs no uniqueness check. The invariant survives an
  update only because `save` refuses a clash; the service then surfaces the
  store's refusal. `UpdateClashBreaksUnique` shows that the overwrite alone
  would break the invariant.
- `insertBook` passes the candidate to `save` as it is. A candidate whose id is
  already stored therefore overwrites that row instead of adding one; the
  "one more row" promise holds only for a candidate without a stored id.

The service, the exception classes and the tests disagree on the exception
message texts, and `insertBook` passes one string to the two-argument
`BookAlreadyExistsException` constructor
(`src/main/java/com/techreturners/bookmanager/service/BookManagerServiceImpl.java`
line 29); the model keeps only the error kinds and their payloads.

## Model

| member | source | states |
|---|---|---|
| `BookRepository.Listing` | src/main/java/com/techreturners/bookmanager/repository/BookManagerRepository.java:11 | `findAll` yields one book per listed key, the i-th being the row stored under the i-th key |
| `BookRepository.Without` | src/main/java/com/techreturners/bookmanager/repository/BookManagerRepository.java:11 | after `deleteById` the listing order holds exactly the keys it held before except the deleted one |
| `BookRepository.CountZeroIffNoMatch` | src/main/java/com/techreturners/bookmanager/repository/BookManagerRepository.java:12 | the query's count is zero exactly when no book matches both the title and the author; a match on only one of them does not count |
| `BookRepository.CountTitleAndAuthor` | src/main/java/com/techreturners/bookmanager/repository/BookManagerRepository.java:12 | the `COUNT(a)` of the query over the rows `findAll` yields; never more than the number of rows |
| `BookRepository.UniqueIffNoOtherRowTaken` | src/main/java/com/techreturners/bookmanager/model/Book.java:15 | the `UniqueTitleAndAuthor` constraint holds exactly when no row's (title, author) pair is held by another row |
| `BookRepository.UpdateClashBreaksUnique` | src/main/java/com/techreturners/bookmanager/service/BookManagerServiceImpl.java:44-49 | overwriting a stored row with a pair another row holds breaks the constraint; with `UpdateKeepsWellformed`, an overwrite keeps pairs unique exactly when no other row holds the new pair, so the update relies on the table's check |
| `BookRepository.ListingSize` | src/main/java/com/techreturners/bookmanager/repository/BookManagerRepository.java:11 | `findAll` yields as many books as the table has rows |
| `BookRepository.ListingMembers` | src/main/java/com/techreturners/bookmanager/repository/BookManagerRepository.java:11 | `findAll` yields every stored row and only stored rows, each carrying its own key as id |
| `BookRepository.InsertKeepsWellformed` | src/main/java/com/techreturners/bookmanager/model/Book.java:15-21 | a row stored under a freshly generated key with a free (title, author) pair keeps keys unique and pairs unique |
| `BookRepository.UpdateKeepsWellformed` | src/main/java/com/techreturners/bookmanager/model/Book.java:15-21 | overwriting a row under its own key, when no other row holds the new pair, keeps the table invariant |
| `BookRepository.DeleteKeepsWellformed` | src/main/java/com/techreturners/bookmanager/repository/BookManagerRepository.java:11 | removing a key keeps the table invariant |
| `BookRepository.BookTable.constructor` | src/main/java/com/techreturners/bookmanager/model/Book.java:18-19 | a new table is empty and its id generator has handed out nothing |
| `BookRepository.BookTable.FindAll` | src/main/java/com/techreturners/bookmanager/repository/BookManagerRepository.java:11 | every stored book exactly once, in the table's order, and nothing else |
| `BookRepository.BookTable.FindById` | src/main/java/com/techreturners/bookmanager/repository/BookManagerRepository.java:11 | a found book is stored and carries the requested id; none is found only when no stored book has that id |
| `BookRepository.BookTable.ExistsById` | src/main/java/com/techreturners/bookmanager/repository/BookManagerRepository.java:11 | true exactly when some stored book carries the id |
| `BookRepository.BookTable.IsUniqueBook` | src/main/java/com/techreturners/bookmanager/repository/BookManagerRepository.java:12-13 | with parameters (author, title): true exactly when no stored row has that title and that author; reads the table only |
| `BookRepository.BookTable.Save` | src/main/java/com/techreturners/bookmanager/repository/BookManagerRepository.java:11 | insert under a fresh generated key (one more row, appended to the order) or full overwrite of the row with that id; a (title, author) clash with another row is refused and changes nothing; afterwards `findById` of the saved id yields the saved book |
| `BookRepository.BookTable.DeleteById` | src/main/java/com/techreturners/bookmanager/repository/BookManagerRepository.java:11 | removes the row with that key and no other, keeps the others' order, and `existsById` is false afterwards |
| `BookService.BookManagerService.constructor` | src/main/java/com/techreturners/bookmanager/service/BookManagerServiceImpl.java:16-17 | the service holds the repository it was given |
| `BookService.BookManagerService.GetAllBooks` | src/main/java/com/techreturners/bookmanager/service/BookManagerServiceImpl.java:20-24 | returns exactly what `findAll` yields, in that order and with that count (empty for an empty table), and changes nothing |
| `BookService.BookManagerService.InsertBook` | src/main/java/com/techreturners/bookmanager/service/BookManagerServiceImpl.java:27-32 | a pair already stored fails with `AlreadyExists(title, author)` and never writes; otherwise returns what `save` returns: the candidate with a generated fresh id, exactly one more row and the generator advanced by one, or (candidate id already stored) the overwritten row with the generator unchanged; the invariant is kept; `getBookById` of the returned id yields the returned book |
| `BookService.BookManagerService.GetBookById` | src/main/java/com/techreturners/bookmanager/service/BookManagerServiceImpl.java:35-37 | the stored book with that id, or `NotFound(id)` exactly when no stored book has it; reads only |
| `BookService.BookManagerService.UpdateBookById` | src/main/java/com/techreturners/bookmanager/service/BookManagerServiceImpl.java:41-50 | absent id: `NotFound(id)` and nothing saved; present id: keeps the id, replaces title, description, author and genre with the argument's, leaves every other row and the order unchanged; a clash with another row is refused by the table and surfaces as `StoreFailure` with nothing changed |
| `BookService.BookManagerService.DeleteBookById` | src/main/java/com/techreturners/bookmanager/service/BookManagerServiceImpl.java:54-59 | absent id: `NotFound(id)` and nothing deleted; present id: removes exactly that row, leaves the generator unchanged, after which `existsById` is false |

## Left out

- `Genre`: `Genre.java` is not part of this model; the enumeration lists only the two values the tests use, `Education` and `Fantasy`.
- Null fields: a Java `Book` may carry a null title, description, author or genre, and SQL equality on NULL is never true; the model's fields are always present.
- Id width: ids are unbounded natural numbers; the 64-bit `Long` range and the generator's exhaustion are not modelled.
- String comparison is exact; a database collation that compares case-insensitively is not modelled.
- Exception message texts and the mapping to HTTP 404/409 responses (`ExceptionResolver.java`) are not modelled; errors carry their id or their title and author.
- Spring wiring, JPA mapping and transactions: the repository is injected through the constructor; each operation is one atomic step with no rollback.
- Concurrency: the model is single-threaded, so the window between the `isUniqueBook` check and `save` does not arise.
- Saving a book whose id the table does not hold is modelled as an insert under a generated key; some persistence providers reject such a write instead.
- `deleteById` on an absent key is a no-op; older repository versions raise an error there, but the service only calls it after `existsById`.
- `findAll` order: the model fixes insertion order; a database may return rows in any order.
- In-place mutation of the retrieved entity: the service's four setters are modelled as four field updates of a `Book` value that is then saved; aliasing between that entity and the persistence context is not modelled.
