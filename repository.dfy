/** The book table behind `BookManagerRepository`: the id-keyed CRUD
    operations it inherits from `CrudRepository<Book, Long>`, the
    `isUniqueBook` query, and the `UniqueTitleAndAuthor` constraint that the
    table enforces on every write. */
module BookRepository {
  import opened Wrappers
  import opened BookModel

  /** What the table raises when a write would break `UniqueTitleAndAuthor`. */
  datatype StoreError = UniqueConstraintViolation(title: string, author: string)

  /** No key occurs twice. */
  predicate Distinct(ids: seq<Id>)
  {
    forall i, j :: 0 <= i < j < |ids| ==> ids[i] != ids[j]
  }

  /** Some row already holds this (title, author) pair. */
  predicate PairTaken(rows: map<Id, Book>, title: string, author: string)
  {
    exists k :: k in rows && SameTitleAndAuthor(rows[k], title, author)
  }

  /** The `UniqueTitleAndAuthor` constraint: no two rows share a pair. */
  predicate UniqueTitleAndAuthor(rows: map<Id, Book>)
  {
    forall j, k :: j in rows && k in rows && j != k ==>
      !SameTitleAndAuthor(rows[j], rows[k].title, rows[k].author)
  }

  /** The table invariant. `order` lists every stored key once, in the
      order `findAll` yields them; each row carries its own key as `id`;
      every key was handed out by the generator before `nextId`; and the
      unique constraint holds. */
  ghost predicate Wellformed(rows: map<Id, Book>, order: seq<Id>, nextId: Id)
  {
    && Distinct(order)
    && (forall k :: k in order <==> k in rows)
    && (forall k :: k in rows ==> rows[k].id == Some(k) && k < nextId)
    && UniqueTitleAndAuthor(rows)
  }

  /** The rows named by `order`, in that order. */
  function Listing(rows: map<Id, Book>, order: seq<Id>): (books: seq<Book>)
    requires forall k :: k in order ==> k in rows
    ensures |books| == |order|
    ensures forall i :: 0 <= i < |order| ==> books[i] == rows[order[i]]
  {
    if order == [] then [] else [rows[order[0]]] + Listing(rows, order[1..])
  }

  /** `order` with `id` filtered out, the others kept in their order. */
  function Without(ids: seq<Id>, id: Id): (rest: seq<Id>)
    ensures forall k :: k in rest <==> k in ids && k != id
  {
    if ids == [] then []
    else (if ids[0] == id then [] else [ids[0]]) + Without(ids[1..], id)
  }

  /** The number of books with exactly this author and this title: the
      `COUNT(a)` of the `isUniqueBook` query. */
  function CountTitleAndAuthor(books: seq<Book>, author: string, title: string): (count: nat)
    ensures count <= |books|
  {
    if books == [] then 0
    else (if SameTitleAndAuthor(books[0], title, author) then 1 else 0)
         + CountTitleAndAuthor(books[1..], author, title)
  }

  /** The count is zero exactly when no book matches both the title and the
      author; a book that matches only one of them does not count. */
  lemma {:induction false} CountZeroIffNoMatch(books: seq<Book>, author: string, title: string)
    ensures CountTitleAndAuthor(books, author, title) == 0
            <==> forall b :: b in books ==> !SameTitleAndAuthor(b, title, author)
  {
    if books != [] {
      CountZeroIffNoMatch(books[1..], author, title);
      assert forall b :: b in books ==> b == books[0] || b in books[1..];
    }
  }

  /** A sequence without repetitions has as many elements as the set of
      keys it lists. */
  lemma {:induction false} DistinctCardinality(ids: seq<Id>, keys: set<Id>)
    requires Distinct(ids)
    requires forall k :: k in keys <==> k in ids
    ensures |keys| == |ids|
  {
    if ids != [] {
      var rest := keys - {ids[0]};
      assert forall k :: k in rest <==> k in ids[1..] by {
        forall k ensures k in rest <==> k in ids[1..] {
          if k in ids[1..] {
            var i :| 0 <= i < |ids[1..]| && ids[1..][i] == k;
            assert ids[i + 1] == k;
          }
        }
      }
      DistinctCardinality(ids[1..], rest);
    } else {
      assert keys == {};
    }
  }

  /** Filtering a key out keeps a list without repetitions. */
  lemma {:induction false} WithoutDistinct(ids: seq<Id>, id: Id)
    requires Distinct(ids)
    ensures Distinct(Without(ids, id))
  {
    if ids != [] {
      WithoutDistinct(ids[1..], id);
      assert ids[0] !in ids[1..];
    }
  }

  /** Filtering out a key that is not there changes nothing. */
  lemma {:induction false} WithoutAbsent(ids: seq<Id>, id: Id)
    requires id !in ids
    ensures Without(ids, id) == ids
  {
    if ids != [] {
      WithoutAbsent(ids[1..], id);
      assert ids == [ids[0]] + ids[1..];
    }
  }

  /** `findAll` yields as many books as there are stored rows. */
  lemma ListingSize(rows: map<Id, Book>, order: seq<Id>)
    requires Distinct(order)
    requires forall k :: k in order <==> k in rows
    ensures |Listing(rows, order)| == |rows|
  {
    DistinctCardinality(order, rows.Keys);
    assert |rows| == |rows.Keys|;
  }

  /** `findAll` yields every stored row and nothing else. */
  lemma ListingMembers(rows: map<Id, Book>, order: seq<Id>, nextId: Id)
    requires Wellformed(rows, order, nextId)
    ensures forall k :: k in rows ==> rows[k] in Listing(rows, order)
    ensures forall b :: b in Listing(rows, order) ==>
              b.id.Some? && b.id.value in rows && rows[b.id.value] == b
  {
  }

  /** Storing a row under a freshly generated key, when its pair is free,
      keeps the table invariant. */
  lemma InsertKeepsWellformed(rows: map<Id, Book>, order: seq<Id>, nextId: Id, row: Book)
    requires Wellformed(rows, order, nextId)
    requires row.id == Some(nextId)
    requires !PairTaken(rows, row.title, row.author)
    ensures Wellformed(rows[nextId := row], order + [nextId], nextId + 1)
  {
  }

  /** Overwriting a stored row, when no other row holds its pair, keeps the
      table invariant. */
  lemma UpdateKeepsWellformed(rows: map<Id, Book>, order: seq<Id>, nextId: Id, id: Id, row: Book)
    requires Wellformed(rows, order, nextId)
    requires id in rows && row.id == Some(id)
    requires !PairTaken(rows - {id}, row.title, row.author)
    ensures Wellformed(rows[id := row], order, nextId)
  {
    var rows' := rows[id := row];
    forall j, k | j in rows' && k in rows' && j != k
      ensures !SameTitleAndAuthor(rows'[j], rows'[k].title, rows'[k].author)
    {
      if j == id {
        assert k in rows - {id};
      } else if k == id {
        assert j in rows - {id};
      }
    }
  }

  /** The converse: overwriting a stored row with a pair that another row
      holds breaks the unique constraint. With `UpdateKeepsWellformed`, an
      overwrite keeps the pairs unique exactly when no other row holds the
      new pair, so the check that `save` makes is the one the update needs. */
  lemma UpdateClashBreaksUnique(rows: map<Id, Book>, order: seq<Id>, nextId: Id, id: Id, row: Book)
    requires Wellformed(rows, order, nextId)
    requires id in rows && row.id == Some(id)
    requires PairTaken(rows - {id}, row.title, row.author)
    ensures !UniqueTitleAndAuthor(rows[id := row])
  {
    var k :| k in rows - {id} && SameTitleAndAuthor(rows[k], row.title, row.author);
    var rows' := rows[id := row];
    assert rows'[k] == rows[k] && rows'[id] == row;
    assert k in rows' && id in rows' && k != id;
  }

  /** The unique constraint holds exactly when no row's pair is taken by
      another row: the constraint and the `isUniqueBook` test agree. */
  lemma UniqueIffNoOtherRowTaken(rows: map<Id, Book>)
    ensures UniqueTitleAndAuthor(rows)
            <==> forall k :: k in rows ==> !PairTaken(rows - {k}, rows[k].title, rows[k].author)
  {
    if UniqueTitleAndAuthor(rows) {
      forall k | k in rows
        ensures !PairTaken(rows - {k}, rows[k].title, rows[k].author)
      {
        var others := rows - {k};
        forall j | j in others
          ensures !SameTitleAndAuthor(others[j], rows[k].title, rows[k].author)
        {
          assert others[j] == rows[j] && j != k;
        }
      }
    } else {
      var j, k :| j in rows && k in rows && j != k
                  && SameTitleAndAuthor(rows[j], rows[k].title, rows[k].author);
      assert j in rows - {k} && (rows - {k})[j] == rows[j];
    }
  }

  /** Removing a key keeps the table invariant. */
  lemma DeleteKeepsWellformed(rows: map<Id, Book>, order: seq<Id>, nextId: Id, id: Id)
    requires Wellformed(rows, order, nextId)
    ensures Wellformed(rows - {id}, Without(order, id), nextId)
  {
    WithoutDistinct(order, id);
  }

  /** The book table. */
  class BookTable {
    var rows: map<Id, Book>
    var order: seq<Id>
    var nextId: Id

    ghost predicate Valid()
      reads this
    {
      Wellformed(rows, order, nextId)
    }

    /** An empty table whose generator starts at 1. */
    constructor ()
      ensures Valid()
      ensures rows == map[] && order == [] && nextId == 1
    {
      rows, order, nextId := map[], [], 1;
    }

    /** `findAll`: every stored book once, in the table's order. */
    function FindAll(): (books: seq<Book>)
      reads this
      requires Valid()
      ensures |books| == |rows| == |order|
      ensures forall i :: 0 <= i < |order| ==> books[i] == rows[order[i]]
      ensures forall k :: k in rows ==> rows[k] in books
      ensures forall b :: b in books ==> b.id.Some? && b.id.value in rows && rows[b.id.value] == b
    {
      ListingSize(rows, order);
      ListingMembers(rows, order, nextId);
      Listing(rows, order)
    }

    /** `findById`: the stored book with this id, if there is one. */
    function FindById(id: Id): (found: Option<Book>)
      reads this
      requires Valid()
      ensures found.Some? ==> found.value in FindAll() && found.value.id == Some(id)
      ensures found.None? ==> forall b :: b in FindAll() ==> b.id != Some(id)
    {
      if id in rows then Some(rows[id]) else None
    }

    /** `existsById`. */
    function ExistsById(id: Id): (present: bool)
      reads this
      requires Valid()
      ensures present <==> exists b :: b in FindAll() && b.id == Some(id)
    {
      id in rows
    }

    /** `isUniqueBook(author, title)`: the count of stored books with that
        author and that title is zero. Note the parameter order. */
    function IsUniqueBook(author: string, title: string): (unique: bool)
      reads this
      requires Valid()
      ensures unique <==> !PairTaken(rows, title, author)
      ensures unique <==> forall b :: b in FindAll() ==> !SameTitleAndAuthor(b, title, author)
    {
      CountZeroIffNoMatch(FindAll(), author, title);
      CountTitleAndAuthor(FindAll(), author, title) == 0
    }

    /** `save`: a book whose id is stored overwrites that row in full; any
        other book (no id yet, or an id the table does not hold) is
        inserted under a key from the generator. Either write is refused,
        and the table left as it was, when another row already holds the
        book's (title, author) pair. */
    method Save(book: Book) returns (saved: Result<Book, StoreError>)
      requires Valid()
      modifies this
      ensures Valid()
      ensures book.id.Some? && book.id.value in old(rows) ==>
        if PairTaken(old(rows) - {book.id.value}, book.title, book.author)
        then saved == Failure(UniqueConstraintViolation(book.title, book.author)) && unchanged(this)
        else && saved == Success(book)
             && rows == old(rows)[book.id.value := book]
             && order == old(order) && nextId == old(nextId)
      ensures !(book.id.Some? && book.id.value in old(rows)) ==>
        var row := book.(id := Some(old(nextId)));
        if PairTaken(old(rows), book.title, book.author)
        then saved == Failure(UniqueConstraintViolation(book.title, book.author)) && unchanged(this)
        else && saved == Success(row)
             && old(nextId) !in old(rows)
             && rows == old(rows)[old(nextId) := row]
             && order == old(order) + [old(nextId)] && nextId == old(nextId) + 1
      ensures saved.Success? ==>
        saved.value.id.Some? && FindById(saved.value.id.value) == Some(saved.value)
    {
      if book.id.Some? && book.id.value in rows {
        var id := book.id.value;
        if PairTaken(rows - {id}, book.title, book.author) {
          saved := Failure(UniqueConstraintViolation(book.title, book.author));
        } else {
          UpdateKeepsWellformed(rows, order, nextId, id, book);
          rows := rows[id := book];
          saved := Success(book);
        }
      } else {
        var row := book.(id := Some(nextId));
        if PairTaken(rows, book.title, book.author) {
          saved := Failure(UniqueConstraintViolation(book.title, book.author));
        } else {
          InsertKeepsWellformed(rows, order, nextId, row);
          rows, order, nextId := rows[nextId := row], order + [nextId], nextId + 1;
          saved := Success(row);
        }
      }
    }

    /** `deleteById`: removes the row with this key, if any, and no other. */
    method DeleteById(id: Id)
      requires Valid()
      modifies this
      ensures Valid()
      ensures rows == old(rows) - {id}
      ensures order == Without(old(order), id) && nextId == old(nextId)
      ensures id !in old(rows) ==> unchanged(this)
      ensures !ExistsById(id)
    {
      DeleteKeepsWellformed(rows, order, nextId, id);
      if id in rows {
        rows, order := rows - {id}, Without(order, id);
      } else {
        WithoutAbsent(order, id);
        assert rows - {id} == rows;
      }
    }
  }
}
