# Book catalogue services: a verified model

This project models the two parts of a small Spring book-catalogue backend
that hold real logic, and proves properties of them in Dafny.

- **The book query engine** (`BookServiceImpl`). Each search loads every
  book and keeps the matching ones in their original order. It then passes
  that list to `createPageFromList`, which cuts out one page and sorts only
  that page with the comparator `applySorting` builds. The book field checks
  for create and update are modelled too.
- **The book–shelf membership manager** (`ShelfServiceImpl`). It covers
  adding a book to a shelf, taking it off, clearing a shelf, deleting a shelf,
  updating a shelf and the shelf field checks.

The store is two finite maps, books by id and shelves by id. A book holds the
id of its shelf, or none. A shelf's list of books is not stored: it is
computed from the books' references (`ShelfService.BooksOn`), so a book
stands on at most one shelf by construction. Every operation returns a
`Result`: a new store or value, or one of the typed failures `BookNotFound`,
`ShelfNotFound` or `InvalidRequest`. A failure carries no new state, so a
failed operation leaves the store as it was.

Modules, one per file: `Outcomes` (Option, Result, failures), `Text` (trim,
lower case, contains, case-insensitive order), `Library` (entities and
limits), `Filtering`, `Paging`, `Ordering` (the comparator), `Sorting`,
`BookService` and `ShelfService`.

Two behaviours of the code are easy to miss:

- **Sorting happens after slicing.** Sorting applies only to the page slice,
  not to the whole filtered list. Each page comes back sorted, and all pages
  together still hold every matching book exactly once. But pages read one
  after another need not be in order (`BookService.SortStopsAtPageBoundary`).
- **Book update can move a book.** `updateBook` overwrites a book's shelf
  reference without the "already on a shelf" rule. That operation is outside
  this model (see Left out).

## Model

| member | source | states |
|---|---|---|
| Text.BlankIffAllTrimmable | src/main/java/com/example/crud/service/iml/BookServiceImpl.java:140 | an argument is blank after `trim()` exactly when every char in it is at most U+0020 |
| Text.ContainsIffOccurs | src/main/java/com/example/crud/service/iml/BookServiceImpl.java:145-146 | `contains` holds exactly when the searched string occurs as a window of the text at some index |
| Text.CompareIgnoreCaseIsLexOfLower | src/main/java/com/example/crud/service/iml/BookServiceImpl.java:268 | the char-by-char case-insensitive comparison equals the lexicographic order of the lower-cased strings, a shorter common prefix first |
| Text.CompareIgnoreCaseZeroIff | src/main/java/com/example/crud/service/iml/BookServiceImpl.java:268 | two titles or authors tie exactly when their lower-cased forms are equal ("alpha" ties with "Alpha") |
| Filtering.Filter | src/main/java/com/example/crud/service/iml/BookServiceImpl.java:144-147 | the filtered list holds exactly the elements satisfying the predicate, each as many times as in the input, and is no longer than the input |
| Filtering.FilterIsSubsequence | src/main/java/com/example/crud/service/iml/BookServiceImpl.java:144-147 | filtering only deletes elements and keeps the survivors in their original order |
| Filtering.FilterAppend | src/main/java/com/example/crud/service/iml/BookServiceImpl.java:144-147 | the filter of a concatenation is the concatenation of the filters, so kept elements never change relative order |
| Paging.PageSlice | src/main/java/com/example/crud/service/iml/BookServiceImpl.java:240-251 | the page starts at page*size and copies the list from there; it is empty when the start is at or past the end, otherwise min(size, length − start) long |
| Paging.PagesArePrefix | src/main/java/com/example/crud/service/iml/BookServiceImpl.java:240-251 | pages 0..n−1 laid end to end are exactly the first min(n*size, length) elements: none repeated, none skipped |
| Paging.PagesReproduceList | src/main/java/com/example/crud/service/iml/BookServiceImpl.java:240-251 | for size ≥ 1, reading pages until the start passes the end reproduces the whole list |
| Ordering.KeyOf | src/main/java/com/example/crud/service/iml/BookServiceImpl.java:266-279 | the switch selects the id comparator exactly when the lower-cased property is none of "title", "author" and "year" |
| Ordering.KeyOfIgnoresCase | src/main/java/com/example/crud/service/iml/BookServiceImpl.java:266 | property names that differ only in letter case select the same comparator |
| Ordering.KeyOfSpellings | src/main/java/com/example/crud/service/iml/BookServiceImpl.java:266-279 | "Title", "AUTHOR" and "yEaR" select their comparators; "price", "id" and "titles" fall back to the id |
| Ordering.KeyCompareMeaning | src/main/java/com/example/crud/service/iml/BookServiceImpl.java:266-279 | title and author compare case-insensitively, year and id numerically; ties on a key happen exactly on equal key values |
| Ordering.DescendingReverses | src/main/java/com/example/crud/service/iml/BookServiceImpl.java:281-283 | a descending order is the ascending comparison of the same key negated |
| Ordering.CompareChains | src/main/java/com/example/crud/service/iml/BookServiceImpl.java:288-292 | chaining is lexicographic: the earlier orders decide and later ones only break their ties |
| Ordering.CompareAntisymmetric | src/main/java/com/example/crud/service/iml/BookServiceImpl.java:288-292 | swapping the two books negates the chained comparison |
| Ordering.CompareTransitive | src/main/java/com/example/crud/service/iml/BookServiceImpl.java:288-292 | the chained comparator orders transitively, so the sort below is well defined |
| Sorting.InsertSorted | src/main/java/com/example/crud/service/iml/BookServiceImpl.java:294 | inserting a book into a sorted list keeps it sorted |
| Sorting.Sort | src/main/java/com/example/crud/service/iml/BookServiceImpl.java:294 | the sorted list is a permutation of its input (same multiset) and is ordered by the chained comparator |
| Sorting.SortKeepsAllTies | src/main/java/com/example/crud/service/iml/BookServiceImpl.java:288-295 | when every pair of books ties, sorting leaves the list exactly as it was |
| BookService.ApplySorting | src/main/java/com/example/crud/service/iml/BookServiceImpl.java:260-298 | the result is a permutation of the input ordered by the requested orders; with no orders it is the input itself |
| BookService.CreatePageFromList | src/main/java/com/example/crud/service/iml/BookServiceImpl.java:239-258 | the total is the length of the whole list whatever the page; the content is at most size long, empty past the end, otherwise a permutation of the slice starting at page*size (that exact slice when unsorted), sorted by the request |
| BookService.PageContentsArePermutation | src/main/java/com/example/crud/service/iml/BookServiceImpl.java:246-255 | sorting never moves a book to another page: the first n sorted pages hold exactly the books of the first n slices |
| BookService.AllPagesCoverList | src/main/java/com/example/crud/service/iml/BookServiceImpl.java:239-258 | reading every page returns every listed book exactly as often as it occurs, and the list itself when unsorted |
| BookService.SortStopsAtPageBoundary | src/main/java/com/example/crud/service/iml/BookServiceImpl.java:253-255 | with titles "B" then "A" and one book per page, each page is sorted but pages 0 and 1 together are not |
| BookService.SearchBooks | src/main/java/com/example/crud/service/iml/BookServiceImpl.java:139-150 | fails with InvalidRequest exactly on a null or blank keyword; otherwise every paged book has the keyword in its title or author, case-insensitively, and the total counts all such books |
| BookService.FindByAuthor | src/main/java/com/example/crud/service/iml/BookServiceImpl.java:153-167 | fails with InvalidRequest exactly on a null or blank name; otherwise pages the books whose author contains the name, case-insensitively, with the total of all such books |
| BookService.FindByYear | src/main/java/com/example/crud/service/iml/BookServiceImpl.java:170-188 | fails on a null year, then on a year outside [0, 2100], and otherwise succeeds, paging exactly the books of that year |
| BookService.FindByTitleAndAuthor | src/main/java/com/example/crud/service/iml/BookServiceImpl.java:191-207 | fails only when both terms are null or blank; a missing term matches every book and both conditions must hold |
| BookService.SearchIgnoresCase | src/main/java/com/example/crud/service/iml/BookServiceImpl.java:140-146 | keywords differing only in letter case give the same page or the same failure |
| BookService.MissingTitleMeansFindByAuthor | src/main/java/com/example/crud/service/iml/BookServiceImpl.java:192-202 | with the title missing and a non-blank author, the combined search answers exactly like the author search |
| BookService.ValidateBookForCreation | src/main/java/com/example/crud/service/iml/BookServiceImpl.java:300-320 | accepts exactly a present body with a non-blank title and author and a year in [0, 2100]; the first failed check names the reason |
| BookService.ValidateBookForUpdate | src/main/java/com/example/crud/service/iml/BookServiceImpl.java:322-338 | refuses only a missing body (with the update message, not the creation one), a title or author present but blank, or a year present but out of range, reporting the first in that order; an all-null body passes |
| BookService.CreationStricterThanUpdate | src/main/java/com/example/crud/service/iml/BookServiceImpl.java:300-338 | every book body accepted for creation is accepted for update |
| ShelfService.AtMostOneShelf | src/main/java/com/example/crud/entity/Shelf.java:19-20 | the derived book sets of two different shelves are disjoint |
| ShelfService.AddBookToShelf | src/main/java/com/example/crud/service/iml/ShelfServiceImpl.java:122-140 | shelf missing → ShelfNotFound, checked before the book; book missing → BookNotFound; book on any shelf → InvalidRequest naming that shelf; otherwise only that book changes, its shelf becomes the target, and every reference stays valid |
| ShelfService.RemoveBookFromShelf | src/main/java/com/example/crud/service/iml/ShelfServiceImpl.java:101-118 | book missing → BookNotFound; not on a shelf → InvalidRequest; otherwise only that book's reference is cleared and it leaves its shelf's book set |
| ShelfService.ClearShelf | src/main/java/com/example/crud/service/iml/ShelfServiceImpl.java:144-159 | shelf missing → ShelfNotFound; otherwise no book references the shelf afterwards, its former books only lose the reference, and every other book and shelf is untouched |
| ShelfService.DeleteShelf | src/main/java/com/example/crud/service/iml/ShelfServiceImpl.java:64-79 | shelf missing → ShelfNotFound; a shelf with books → InvalidRequest; otherwise only that shelf is removed, its name is returned, and no book is left referencing it |
| ShelfService.RemoveUndoesAdd | src/main/java/com/example/crud/service/iml/ShelfServiceImpl.java:101-140 | taking a book off the shelf it was just added to restores the store exactly |
| ShelfService.AddUndoesRemove | src/main/java/com/example/crud/service/iml/ShelfServiceImpl.java:101-140 | putting a book back on the shelf it was just taken off restores the store exactly |
| ShelfService.SecondAddFails | src/main/java/com/example/crud/service/iml/ShelfServiceImpl.java:129-134 | a second add of the same book, to any existing shelf, fails naming the first shelf |
| ShelfService.ClearEmptyShelfIsNoOp | src/main/java/com/example/crud/service/iml/ShelfServiceImpl.java:148-151 | clearing an empty shelf returns the store unchanged |
| ShelfService.DeleteSucceedsAfterClear | src/main/java/com/example/crud/service/iml/ShelfServiceImpl.java:64-79 | any existing shelf can be deleted once it has been cleared |
| ShelfService.ValidateShelfForCreation | src/main/java/com/example/crud/service/iml/ShelfServiceImpl.java:161-177 | accepts exactly a non-blank name of at most 100 chars and a null or at most 500-char description; a refusal names the first failed check: missing body, missing or blank name, name too long, description too long |
| ShelfService.ValidateShelfForUpdate | src/main/java/com/example/crud/service/iml/ShelfServiceImpl.java:179-197 | checks the name only when present (blank, then too long) and always the description limit, reporting the first failure; a missing body gets the update message; an all-null body passes |
| ShelfService.ShelfCreationStricterThanUpdate | src/main/java/com/example/crud/service/iml/ShelfServiceImpl.java:161-197 | every shelf body accepted for creation is accepted for update |
| ShelfService.UpdateShelfAsWritten | src/main/java/com/example/crud/service/iml/ShelfServiceImpl.java:47-60 | validation first, then ShelfNotFound; on success only that shelf changes, and its name and description become the body's, null included |
| ShelfService.UpdateWithoutNameErasesName | src/main/java/com/example/crud/service/iml/ShelfServiceImpl.java:47-59 | an update body with no name turns a well-formed shelf into one with a null name, which the creation checks refuse |
| ShelfService.UpdateShelf | src/main/java/com/example/crud/service/iml/ShelfServiceImpl.java:47-59 | as above, but a missing name keeps the stored one, so shelves that pass the creation checks keep passing them |

## Findings

| source | as written | input that shows it | evidently intended | confidence | as-written member | corrected member |
|---|---|---|---|---|---|---|
| src/main/java/com/example/crud/service/iml/ShelfServiceImpl.java:56 | `updateShelf` copies the body's name even when it is null, which `validateShelfForUpdate` lets through (lines 184-192) | `updateShelf(1, {name: null, description: null})` on shelf 1 named "Fiction" leaves shelf 1 with a null name | a missing name leaves the stored name, as the update check's "only if present" rule implies | medium, not executed | ShelfService.UpdateShelfAsWritten (counterexample: ShelfService.UpdateWithoutNameErasesName) | ShelfService.UpdateShelf |

## Left out

- Persistence: the repositories, JPA cascades and lazy loading are not modelled. `@Transactional` is modelled only as "each operation is one atomic step on the maps". Logging is left out.
- Concurrency is not modelled. Two concurrent adds of the same book could both pass the "already on a shelf" check.
- `createBook`, `getBookById`, `getBookWithShelf`, `deleteBook`, `createShelf`, `readShelf`, `getShelfById` and `getBooksForShelf` only look up, save or delete through the store. `readBook` formats Lombok's `toString`. These are not modelled.
- `updateBook` is not modelled. It would let title, author and year become null. Some reads would then throw a NullPointerException on such a book. `searchBooks` reads the title, and the author when the title does not match. `findByAuthor` reads the author. `findByTitleAndAuthor` reads a field only when its term is given. `applySorting` reads the key of a title, author or year order. `findByYear` does not throw, because `year.equals(null)` is false. The model keeps these fields non-null, as `createBook` guarantees.
- `getAllBooks` and the `findAllSortedBy*` methods are not modelled. They delegate to repository queries whose code is not part of this model.
- `convertToBookWithShelfDTO` and the request DTO are not modelled. They only copy fields.
- The controllers and the exception handler are not modelled. They only route requests and map exceptions to HTTP statuses.
- Case mapping covers ASCII letters only. Java's `toLowerCase` and `CASE_INSENSITIVE_ORDER` also fold other Unicode letters.
- The default locale is not modelled. The model assumes a locale that lowercases ASCII in the plain way. Under a Turkish or Azerbaijani default locale, Java's `toLowerCase` turns 'I' into 'ı' (U+0131). There `KeyOf` and the search predicates differ from the model: the property "TITLE" falls back to the id comparator, and the keyword "INDIA" does not match the title "India". `CASE_INSENSITIVE_ORDER` does not depend on the locale.
- String length counts chars, not UTF-16 code units.
- Page and size are unbounded naturals. Java's int overflow of `page * size` is not modelled. Spring's `PageRequest` already rules out negative values.
- Comparators return only the sign of Java's result. Java's `List.sort` only looks at the sign.
- Failure messages are not modelled. Each distinct message becomes one `Reason`. `AlreadyOnShelf` carries the shelf id where the message carries its name.
- Sorting.Sort: stability (tied books keep their input order) is proved only when every pair of books ties (`SortKeepsAllTies`). The general guarantee comes from Java's `List.sort`, not from this code.
