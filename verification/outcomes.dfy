/** Optional values, operation results and the typed failures the two
    services raise. The services signal failure by throwing
    BookNotFoundException, ShelfNotFoundException or InvalidRequestException;
    here every operation returns a Result instead, so a failed operation
    returns no new state and the previous state is left wholly intact. */
module Outcomes {

  /** A Java reference that may be null. */
  datatype Option<+T> = None | Some(value: T)

  /** Why a request was refused with InvalidRequestException; one reason per
      distinct message in the services. */
  datatype Reason =
    // book validation (create)
    | BookBodyMissing
    | TitleRequired
    | AuthorRequired
    | YearRequired
    | YearOutOfRange
    // book and shelf validation (update)
    | UpdateBodyMissing
    | TitleBlank
    | AuthorBlank
    // book queries
    | KeywordBlank
    | AuthorQueryBlank
    | YearQueryMissing
    | YearQueryOutOfRange
    | NoSearchTerm
    // shelf validation
    | ShelfBodyMissing
    | NameRequired
    | NameBlank
    | NameTooLong
    | DescriptionTooLong
    // membership
    | AlreadyOnShelf(currentShelf: int)
    | NotOnShelf
    | ShelfHasBooks

  datatype Error =
    | BookNotFound(bookId: int)
    | ShelfNotFound(shelfId: int)
    | InvalidRequest(reason: Reason)

  /** The outcome of an operation that produces a value. */
  datatype Result<+T> = Ok(value: T) | Err(error: Error)

  /** The outcome of a check that produces nothing (a Java `void` validator). */
  datatype Check = Pass | Fail(error: Error)
}
