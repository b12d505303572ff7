/** The shelf service: adding a book to a shelf, taking it off, clearing and
    deleting a shelf, and the shelf field checks. The store is two finite
    maps; a shelf's list of books is derived from the books' references, so
    a book stands on at most one shelf by construction. */
module ShelfService {
  import opened Outcomes
  import opened Text
  import opened Library

  datatype Store = Store(books: map<int, Book>, shelves: map<int, Shelf>)

  /** `shelf.getBooks()`: the ids of the books whose reference names the
      shelf. */
  function BooksOn(st: Store, shelfId: int): set<int> {
    set b | b in st.books && st.books[b].shelf == Some(shelfId)
  }

  /** Every shelf reference names a stored shelf. */
  predicate ReferencesValid(st: Store) {
    forall b :: b in st.books && st.books[b].shelf.Some? ==> st.books[b].shelf.value in st.shelves
  }

  /** Every entity is stored under its own id. */
  predicate KeysMatch(st: Store) {
    && (forall b :: b in st.books ==> st.books[b].id == b)
    && (forall s :: s in st.shelves ==> st.shelves[s].id == s)
  }

  predicate Consistent(st: Store) {
    ReferencesValid(st) && KeysMatch(st)
  }

  /** `st'` differs from `st` only in the shelf reference of `bookId`, which
      is now `shelf`. */
  predicate OnlyShelfOfBookChanged(st: Store, st': Store, bookId: int, shelf: Option<int>) {
    && st'.shelves == st.shelves
    && st'.books.Keys == st.books.Keys
    && bookId in st.books
    && st'.books[bookId] == st.books[bookId].(shelf := shelf)
    && forall b :: b in st.books && b != bookId ==> st'.books[b] == st.books[b]
  }

  /** A shelf whose derived book set is empty is named by no book. */
  lemma NoBookOnEmptyShelf(st: Store, shelfId: int)
    requires BooksOn(st, shelfId) == {}
    ensures forall b :: b in st.books ==> st.books[b].shelf != Some(shelfId)
  {
    forall b | b in st.books
      ensures st.books[b].shelf != Some(shelfId)
    {
      assert b in BooksOn(st, shelfId) <==> st.books[b].shelf == Some(shelfId);
    }
  }

  /** Two different shelves never share a book. */
  lemma AtMostOneShelf(st: Store, s1: int, s2: int)
    requires s1 != s2
    ensures BooksOn(st, s1) !! BooksOn(st, s2)
  {
  }

  // --------------------------------------------------------- membership

  /** `addBookToShelf`: the shelf is looked up first, then the book; a book
      that already stands on any shelf, this one included, is refused. */
  function AddBookToShelf(st: Store, shelfId: int, bookId: int): (r: Result<Store>)
    ensures shelfId !in st.shelves ==> r == Err(ShelfNotFound(shelfId))
    ensures shelfId in st.shelves && bookId !in st.books ==> r == Err(BookNotFound(bookId))
    ensures shelfId in st.shelves && bookId in st.books && st.books[bookId].shelf.Some? ==>
              r == Err(InvalidRequest(AlreadyOnShelf(st.books[bookId].shelf.value)))
    ensures r.Ok? <==> shelfId in st.shelves && bookId in st.books && st.books[bookId].shelf.None?
    ensures r.Ok? ==> OnlyShelfOfBookChanged(st, r.value, bookId, Some(shelfId))
    ensures r.Ok? ==> BooksOn(r.value, shelfId) == BooksOn(st, shelfId) + {bookId}
    ensures r.Ok? && Consistent(st) ==> Consistent(r.value)
  {
    if shelfId !in st.shelves then Err(ShelfNotFound(shelfId))
    else if bookId !in st.books then Err(BookNotFound(bookId))
    else
      var book := st.books[bookId];
      if book.shelf.Some? then Err(InvalidRequest(AlreadyOnShelf(book.shelf.value)))
      else Ok(st.(books := st.books[bookId := book.(shelf := Some(shelfId))]))
  }

  /** `removeBookFromShelfByBookId`: clears the reference of a book that
      stands on a shelf. The source answers with a null response on
      success; the new store stands for it here. */
  function RemoveBookFromShelf(st: Store, bookId: int): (r: Result<Store>)
    ensures bookId !in st.books ==> r == Err(BookNotFound(bookId))
    ensures bookId in st.books && st.books[bookId].shelf.None? ==> r == Err(InvalidRequest(NotOnShelf))
    ensures r.Ok? <==> bookId in st.books && st.books[bookId].shelf.Some?
    ensures r.Ok? ==> OnlyShelfOfBookChanged(st, r.value, bookId, None)
    ensures r.Ok? ==> var s := st.books[bookId].shelf.value;
                      BooksOn(r.value, s) == BooksOn(st, s) - {bookId}
    ensures r.Ok? && Consistent(st) ==> Consistent(r.value)
  {
    if bookId !in st.books then Err(BookNotFound(bookId))
    else
      var book := st.books[bookId];
      if book.shelf.None? then Err(InvalidRequest(NotOnShelf))
      else Ok(st.(books := st.books[bookId := book.(shelf := None)]))
  }

  /** `clearShelf`: takes every book off the shelf, all in one step; an
      already empty shelf is left alone. */
  function ClearShelf(st: Store, shelfId: int): (r: Result<Store>)
    ensures shelfId !in st.shelves ==> r == Err(ShelfNotFound(shelfId))
    ensures r.Ok? <==> shelfId in st.shelves
    ensures r.Ok? ==> r.value.shelves == st.shelves && r.value.books.Keys == st.books.Keys
    ensures r.Ok? ==> BooksOn(r.value, shelfId) == {}
    ensures r.Ok? ==> forall b :: b in st.books && st.books[b].shelf == Some(shelfId) ==>
                        r.value.books[b] == st.books[b].(shelf := None)
    ensures r.Ok? ==> forall b :: b in st.books && st.books[b].shelf != Some(shelfId) ==>
                        r.value.books[b] == st.books[b]
    ensures r.Ok? ==> forall s :: s != shelfId ==> BooksOn(r.value, s) == BooksOn(st, s)
    ensures r.Ok? && Consistent(st) ==> Consistent(r.value)
  {
    if shelfId !in st.shelves then Err(ShelfNotFound(shelfId))
    else if BooksOn(st, shelfId) == {} then
      NoBookOnEmptyShelf(st, shelfId);
      Ok(st)
    else
      var books := map b | b in st.books ::
        if st.books[b].shelf == Some(shelfId) then st.books[b].(shelf := None) else st.books[b];
      Ok(st.(books := books))
  }

  /** `deleteShelf`: refuses a shelf that still has books; otherwise removes
      it and answers with its name. */
  function DeleteShelf(st: Store, shelfId: int): (r: Result<(Store, Option<string>)>)
    ensures shelfId !in st.shelves ==> r == Err(ShelfNotFound(shelfId))
    ensures shelfId in st.shelves && BooksOn(st, shelfId) != {} ==> r == Err(InvalidRequest(ShelfHasBooks))
    ensures r.Ok? <==> shelfId in st.shelves && BooksOn(st, shelfId) == {}
    ensures r.Ok? ==> r.value.1 == st.shelves[shelfId].name
    ensures r.Ok? ==> var st' := r.value.0;
              && st'.books == st.books
              && st'.shelves.Keys == st.shelves.Keys - {shelfId}
              && forall s :: s in st'.shelves ==> st'.shelves[s] == st.shelves[s]
    ensures r.Ok? && Consistent(st) ==> Consistent(r.value.0)
  {
    if shelfId !in st.shelves then Err(ShelfNotFound(shelfId))
    else if BooksOn(st, shelfId) != {} then Err(InvalidRequest(ShelfHasBooks))
    else
      NoBookOnEmptyShelf(st, shelfId);
      Ok((st.(shelves := st.shelves - {shelfId}), st.shelves[shelfId].name))
  }

  // ------------------------------------------------- membership properties

  /** Taking a book off the shelf it was just put on restores the store. */
  lemma RemoveUndoesAdd(st: Store, shelfId: int, bookId: int)
    requires AddBookToShelf(st, shelfId, bookId).Ok?
    ensures RemoveBookFromShelf(AddBookToShelf(st, shelfId, bookId).value, bookId) == Ok(st)
  {
    var st' := AddBookToShelf(st, shelfId, bookId).value;
    var st'' := RemoveBookFromShelf(st', bookId).value;
    assert st''.books == st.books;
  }

  /** Putting a book back on the shelf it was just taken off restores the
      store. */
  lemma AddUndoesRemove(st: Store, bookId: int)
    requires Consistent(st)
    requires RemoveBookFromShelf(st, bookId).Ok?
    ensures var shelfId := st.books[bookId].shelf.value;
            AddBookToShelf(RemoveBookFromShelf(st, bookId).value, shelfId, bookId) == Ok(st)
  {
    var shelfId := st.books[bookId].shelf.value;
    var st' := RemoveBookFromShelf(st, bookId).value;
    var st'' := AddBookToShelf(st', shelfId, bookId).value;
    assert st''.books == st.books;
  }

  /** A book just put on a shelf cannot be put on another one, or on the
      same one again: the second add fails and names the first shelf. */
  lemma SecondAddFails(st: Store, first: int, second: int, bookId: int)
    requires AddBookToShelf(st, first, bookId).Ok?
    requires second in st.shelves
    ensures AddBookToShelf(AddBookToShelf(st, first, bookId).value, second, bookId)
            == Err(InvalidRequest(AlreadyOnShelf(first)))
  {
  }

  /** Clearing an empty shelf changes nothing. */
  lemma ClearEmptyShelfIsNoOp(st: Store, shelfId: int)
    requires shelfId in st.shelves && BooksOn(st, shelfId) == {}
    ensures ClearShelf(st, shelfId) == Ok(st)
  {
  }

  /** A shelf that refuses deletion because it holds books can be deleted
      once it has been cleared. */
  lemma DeleteSucceedsAfterClear(st: Store, shelfId: int)
    requires shelfId in st.shelves
    ensures ClearShelf(st, shelfId).Ok?
    ensures DeleteShelf(ClearShelf(st, shelfId).value, shelfId).Ok?
  {
  }

  // --------------------------------------------------------- validation

  /** `validateShelfForCreation`: a non-blank name of at most 100 chars and
      a description that is null or at most 500 chars. */
  function ValidateShelfForCreation(input: Option<ShelfInput>): (r: Check)
    ensures r.Pass? <==>
              && input.Some?
              && input.value.name.Some?
              && !IsBlank(input.value.name.value)
              && |input.value.name.value| <= MaxNameLength
              && (input.value.description.Some? ==> |input.value.description.value| <= MaxDescriptionLength)
    ensures input.None? ==> r == Fail(InvalidRequest(ShelfBodyMissing))
    ensures input.Some? && (input.value.name.None? || IsBlank(input.value.name.value)) ==>
              r == Fail(InvalidRequest(NameRequired))
    ensures input.Some? && input.value.name.Some? && !IsBlank(input.value.name.value) ==>
              && (|input.value.name.value| > MaxNameLength ==> r == Fail(InvalidRequest(NameTooLong)))
              && (r.Fail? && |input.value.name.value| <= MaxNameLength ==>
                    r == Fail(InvalidRequest(DescriptionTooLong)))
  {
    if input.None? then Fail(InvalidRequest(ShelfBodyMissing))
    else
      var s := input.value;
      if s.name.None? || IsBlank(s.name.value) then Fail(InvalidRequest(NameRequired))
      else if |s.name.value| > MaxNameLength then Fail(InvalidRequest(NameTooLong))
      else if s.description.Some? && |s.description.value| > MaxDescriptionLength
      then Fail(InvalidRequest(DescriptionTooLong))
      else Pass
  }

  /** `validateShelfForUpdate`: the name checks apply only to a name that is
      present; the description limit always applies. */
  function ValidateShelfForUpdate(input: Option<ShelfInput>): (r: Check)
    ensures r.Pass? <==>
              && input.Some?
              && (input.value.name.Some? ==>
                    !IsBlank(input.value.name.value) && |input.value.name.value| <= MaxNameLength)
              && (input.value.description.Some? ==> |input.value.description.value| <= MaxDescriptionLength)
    ensures input.None? ==> r == Fail(InvalidRequest(UpdateBodyMissing))
    ensures input.Some? && input.value.name.Some? ==>
              && (IsBlank(input.value.name.value) ==> r == Fail(InvalidRequest(NameBlank)))
              && (!IsBlank(input.value.name.value) && |input.value.name.value| > MaxNameLength ==>
                    r == Fail(InvalidRequest(NameTooLong)))
    ensures input.Some? && r.Fail? &&
            (input.value.name.Some? ==>
               !IsBlank(input.value.name.value) && |input.value.name.value| <= MaxNameLength) ==>
              r == Fail(InvalidRequest(DescriptionTooLong))
    ensures input == Some(ShelfInput(None, None)) ==> r.Pass?
  {
    if input.None? then Fail(InvalidRequest(UpdateBodyMissing))
    else
      var s := input.value;
      if s.name.Some? && IsBlank(s.name.value) then Fail(InvalidRequest(NameBlank))
      else if s.name.Some? && |s.name.value| > MaxNameLength then Fail(InvalidRequest(NameTooLong))
      else if s.description.Some? && |s.description.value| > MaxDescriptionLength
      then Fail(InvalidRequest(DescriptionTooLong))
      else Pass
  }

  /** Every body accepted for creation is accepted for an update. */
  lemma ShelfCreationStricterThanUpdate(input: Option<ShelfInput>)
    ensures ValidateShelfForCreation(input).Pass? ==> ValidateShelfForUpdate(input).Pass?
  {
  }

  /** A stored shelf whose fields would pass the creation checks. */
  predicate WellFormedShelf(s: Shelf) {
    ValidateShelfForCreation(Some(ShelfInput(s.name, s.description))).Pass?
  }

  predicate ShelvesWellFormed(st: Store) {
    forall s :: s in st.shelves ==> WellFormedShelf(st.shelves[s])
  }

  // ------------------------------------------------------------- update

  /** `updateShelf` as the source writes it: validate, look the shelf up,
      then copy both fields of the body over the stored ones, a null name
      included. */
  function UpdateShelfAsWritten(st: Store, shelfId: int, input: Option<ShelfInput>): (r: Result<Store>)
    ensures ValidateShelfForUpdate(input).Fail? ==> r == Err(ValidateShelfForUpdate(input).error)
    ensures ValidateShelfForUpdate(input).Pass? && shelfId !in st.shelves ==> r == Err(ShelfNotFound(shelfId))
    ensures r.Ok? <==> ValidateShelfForUpdate(input).Pass? && shelfId in st.shelves
    ensures r.Ok? ==> r.value.books == st.books && r.value.shelves.Keys == st.shelves.Keys
    ensures r.Ok? ==> forall s :: s in st.shelves && s != shelfId ==> r.value.shelves[s] == st.shelves[s]
    ensures r.Ok? ==> && r.value.shelves[shelfId].id == st.shelves[shelfId].id
                      && r.value.shelves[shelfId].name == input.value.name
                      && r.value.shelves[shelfId].description == input.value.description
    ensures r.Ok? && Consistent(st) ==> Consistent(r.value)
  {
    match ValidateShelfForUpdate(input)
    case Fail(e) => Err(e)
    case Pass =>
      if shelfId !in st.shelves then Err(ShelfNotFound(shelfId))
      else
        var existing := st.shelves[shelfId];
        var updated := existing.(name := input.value.name, description := input.value.description);
        Ok(st.(shelves := st.shelves[shelfId := updated]))
  }

  /** An update body without a name erases the name of a well-formed shelf,
      leaving a shelf that the creation checks would refuse. */
  lemma UpdateWithoutNameErasesName()
    ensures var st := Store(map[], map[1 := Shelf(1, Some("Fiction"), None)]);
            var r := UpdateShelfAsWritten(st, 1, Some(ShelfInput(None, None)));
            && ShelvesWellFormed(st)
            && r.Ok?
            && r.value.shelves[1].name.None?
            && !ShelvesWellFormed(r.value)
  {
    var st := Store(map[], map[1 := Shelf(1, Some("Fiction"), None)]);
    FictionIsWellFormed();
    var r := UpdateShelfAsWritten(st, 1, Some(ShelfInput(None, None)));
    assert !WellFormedShelf(r.value.shelves[1]);
  }

  lemma FictionIsWellFormed()
    ensures WellFormedShelf(Shelf(1, Some("Fiction"), None))
  {
    BlankIffAllTrimmable("Fiction");
    assert !IsTrimmable("Fiction"[0]);
  }

  /** `updateShelf` with the partial-update reading its checks imply: a
      missing name keeps the stored one, the description is copied as
      given. */
  function UpdateShelf(st: Store, shelfId: int, input: Option<ShelfInput>): (r: Result<Store>)
    ensures ValidateShelfForUpdate(input).Fail? ==> r == Err(ValidateShelfForUpdate(input).error)
    ensures ValidateShelfForUpdate(input).Pass? && shelfId !in st.shelves ==> r == Err(ShelfNotFound(shelfId))
    ensures r.Ok? <==> ValidateShelfForUpdate(input).Pass? && shelfId in st.shelves
    ensures r.Ok? ==> r.value.books == st.books && r.value.shelves.Keys == st.shelves.Keys
    ensures r.Ok? ==> forall s :: s in st.shelves && s != shelfId ==> r.value.shelves[s] == st.shelves[s]
    ensures r.Ok? ==> && r.value.shelves[shelfId].id == st.shelves[shelfId].id
                      && r.value.shelves[shelfId].description == input.value.description
                      && (input.value.name.Some? ==> r.value.shelves[shelfId].name == input.value.name)
                      && (input.value.name.None? ==> r.value.shelves[shelfId].name == st.shelves[shelfId].name)
    ensures r.Ok? && Consistent(st) ==> Consistent(r.value)
    ensures r.Ok? && ShelvesWellFormed(st) ==> ShelvesWellFormed(r.value)
  {
    match ValidateShelfForUpdate(input)
    case Fail(e) => Err(e)
    case Pass =>
      if shelfId !in st.shelves then Err(ShelfNotFound(shelfId))
      else
        var existing := st.shelves[shelfId];
        var name := if input.value.name.Some? then input.value.name else existing.name;
        var updated := existing.(name := name, description := input.value.description);
        Ok(st.(shelves := st.shelves[shelfId := updated]))
  }
}
