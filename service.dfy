/** `BookManagerServiceImpl`: the service operations over the book table,
    each a single check-then-act step against the store. */
module BookService {
  import opened Wrappers
  import opened BookModel
  import opened BookRepository

  /** The failures the service surfaces to its caller. `NotFound` and
      `AlreadyExists` are raised by the service itself; `StoreFailure` is a
      write the table refused, which the service lets through unhandled. */
  datatype ServiceError =
    | NotFound(id: Id)
    | AlreadyExists(title: string, author: string)
    | StoreFailure(cause: StoreError)

  /** The service, holding the repository it was given at construction. */
  class BookManagerService {
    const repository: BookTable

    ghost predicate Valid()
      reads repository
    {
      repository.Valid()
    }

    constructor (repository: BookTable)
      ensures this.repository == repository
    {
      this.repository := repository;
    }

    /** `getAllBooks`: copies what `findAll` yields into a new list. */
    method GetAllBooks() returns (books: seq<Book>)
      requires Valid()
      ensures books == repository.FindAll()
      ensures |books| == |repository.rows|
      ensures forall k :: k in repository.rows ==> repository.rows[k] in books
    {
      var found := repository.FindAll();
      books := [];
      var i := 0;
      while i < |found|
        invariant 0 <= i <= |found|
        invariant books == found[..i]
      {
        books := books + [found[i]];
        i := i + 1;
      }
    }

    /** `insertBook`: refuses a (title, author) pair the table already holds,
        and otherwise returns what `save` returns. */
    method InsertBook(book: Book) returns (r: Result<Book, ServiceError>)
      requires Valid()
      modifies repository
      ensures Valid()
      ensures !old(repository.IsUniqueBook(book.author, book.title)) ==>
        r == Failure(AlreadyExists(book.title, book.author)) && unchanged(repository)
      ensures old(repository.IsUniqueBook(book.author, book.title)) ==>
        && r.Success? && r.value.id.Some?
        && r.value == book.(id := r.value.id)
        && repository.rows == old(repository.rows)[r.value.id.value := r.value]
      ensures old(repository.IsUniqueBook(book.author, book.title))
              && !(book.id.Some? && book.id.value in old(repository.rows)) ==>
        && r.value.id == Some(old(repository.nextId))
        && r.value.id.value !in old(repository.rows)
        && repository.nextId == old(repository.nextId) + 1
        && |repository.rows| == |old(repository.rows)| + 1
        && repository.order == old(repository.order) + [r.value.id.value]
      ensures old(repository.IsUniqueBook(book.author, book.title))
              && book.id.Some? && book.id.value in old(repository.rows) ==>
        && r == Success(book)
        && repository.order == old(repository.order)
        && repository.nextId == old(repository.nextId)
      ensures r.Success? ==> GetBookById(r.value.id.value) == Success(r.value)
    {
      var unique := repository.IsUniqueBook(book.author, book.title);
      if !unique {
        r := Failure(AlreadyExists(book.title, book.author));
        return;
      }
      assert book.id.Some? ==> !PairTaken(repository.rows - {book.id.value}, book.title, book.author);
      var saved := repository.Save(book);
      // The pre-check has ruled out the only write `save` refuses.
      assert saved.Success?;
      r := Success(saved.value);
    }

    /** `getBookById`: the stored book with this id, or `NotFound(id)`. */
    function GetBookById(id: Id): (r: Result<Book, ServiceError>)
      reads repository
      requires Valid()
      ensures r.Success? ==> r.value in repository.FindAll() && r.value.id == Some(id)
      ensures r.Failure? ==> r.error == NotFound(id) && !repository.ExistsById(id)
    {
      match repository.FindById(id)
      case Some(b) => Success(b)
      case None => Failure(NotFound(id))
    }

    /** `updateBookById`: fails with `NotFound(id)` for an absent id;
        otherwise overwrites title, description, author and genre of the
        stored book with those of `book`, keeps its id, and saves it. The
        service makes no uniqueness check here: a clash with another row is
        refused by the table and surfaces as `StoreFailure`. */
    method UpdateBookById(id: Id, book: Book) returns (r: Outcome<ServiceError>)
      requires Valid()
      modifies repository
      ensures Valid()
      ensures id !in old(repository.rows) ==>
        r == Fail(NotFound(id)) && unchanged(repository)
      ensures id in old(repository.rows) ==>
        var updated := Book(Some(id), book.title, book.description, book.author, book.genre);
        if old(PairTaken(repository.rows - {id}, book.title, book.author))
        then r == Fail(StoreFailure(UniqueConstraintViolation(book.title, book.author)))
             && unchanged(repository)
        else && r == Pass
             && repository.rows == old(repository.rows)[id := updated]
             && repository.order == old(repository.order)
             && repository.nextId == old(repository.nextId)
             && GetBookById(id) == Success(updated)
    {
      var found := repository.FindById(id);
      if found.None? {
        r := Fail(NotFound(id));
        return;
      }
      var retrieved := found.value;
      retrieved := retrieved.(title := book.title);
      retrieved := retrieved.(description := book.description);
      retrieved := retrieved.(author := book.author);
      retrieved := retrieved.(genre := book.genre);
      var saved := repository.Save(retrieved);
      r := if saved.Success? then Pass else Fail(StoreFailure(saved.error));
    }

    /** `deleteBookById`: fails with `NotFound(id)` for an absent id;
        otherwise removes exactly that book. */
    method DeleteBookById(id: Id) returns (r: Outcome<ServiceError>)
      requires Valid()
      modifies repository
      ensures Valid()
      ensures id !in old(repository.rows) ==>
        r == Fail(NotFound(id)) && unchanged(repository)
      ensures id in old(repository.rows) ==>
        && r == Pass
        && repository.rows == old(repository.rows) - {id}
        && repository.order == Without(old(repository.order), id)
        && repository.nextId == old(repository.nextId)
        && !repository.ExistsById(id)
    {
      var present := repository.ExistsById(id);
      if !present {
        r := Fail(NotFound(id));
        return;
      }
      repository.DeleteById(id);
      r := Pass;
    }
  }

  /** Inserting a book, inserting it again, deleting an id that was never
      handed out, and inserting a second book. */
  method InsertTwiceThenDeleteUnknown()
  {
    var table := new BookTable();
    var service := new BookManagerService(table);
    var one := Book(None, "Book One", "This is the description for Book One", "Person One", Education);
    var first := service.InsertBook(one);
    assert first.Success? && first.value.title == "Book One" && first.value.id == Some(1);
    var all := service.GetAllBooks();
    assert |all| == 1;
    assert SameTitleAndAuthor(table.rows[1], "Book One", "Person One");
    var second := service.InsertBook(one);
    assert second == Failure(AlreadyExists("Book One", "Person One"));
    var gone := service.DeleteBookById(999999);
    assert gone == Fail(NotFound(999999));
    var two := Book(None, "Book Two", "This is the description for Book Two", "Person Two", Fantasy);
    var third := service.InsertBook(two);
    assert third.Success? && third.value.id == Some(2);
    all := service.GetAllBooks();
    assert |all| == 2;
  }
}
