/** The `Book` entity: one row of the book table. */
module BookModel {
  import opened Wrappers

  /** The store's `Long` primary key; generated keys are never negative. */
  type Id = nat

  /** The closed `Genre` enumeration stored in the `genre` column. */
  datatype Genre = Education | Fantasy

  /** A book record. Equality is field-wise, as Lombok's `@Data` makes it.
      `id` is `None` until the store has generated one on insert. */
  datatype Book = Book(
    id: Option<Id>,
    title: string,
    description: string,
    author: string,
    genre: Genre)

  /** The table's unique constraint `UniqueTitleAndAuthor` compares books by
      this pair, and nothing else. */
  predicate SameTitleAndAuthor(b: Book, title: string, author: string)
  {
    b.title == title && b.author == author
  }
}
