/** The two entities of the catalogue and the request bodies that create or
    update them. Both ids are plain integers assigned by the store. */
module Library {
  import opened Outcomes

  /** A stored book. `shelf` is the id of the shelf the book stands on, if
      any: the only side of the book-shelf relation that is stored. The model
      keeps title, author and year non-null, as the creation checks of
      `createBook` leave them; `updateBook`, which is not modelled, can store
      a null in any of them. */
  datatype Book = Book(id: int, title: string, author: string, year: int, shelf: Option<int>)

  /** A stored shelf. Its list of books is not a field: it is derived from
      the books' `shelf` references (ShelfService.BooksOn). Name and
      description are Java strings and may be null. */
  datatype Shelf = Shelf(id: int, name: Option<string>, description: Option<string>)

  /** The fields of a book request body; any of them may be null. */
  datatype BookInput = BookInput(title: Option<string>, author: Option<string>, year: Option<int>)

  /** The fields of a shelf request body; either may be null. */
  datatype ShelfInput = ShelfInput(name: Option<string>, description: Option<string>)

  const MinYear: int := 0
  const MaxYear: int := 2100
  const MaxNameLength: int := 100
  const MaxDescriptionLength: int := 500

  predicate YearInRange(year: int) {
    MinYear <= year <= MaxYear
  }
}
