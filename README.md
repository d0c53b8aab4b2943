# TechLibrary book grid and catalog rules, in Dafny

This project models the listing core of the TechLibrary book catalog. That core has two parts:

- **The grid engine** (`BookGridService`). It takes a grid request and the list of books and returns one page with the total count. It rejects a null request, a null or empty list, and a page number or page size that is not positive. It then records the total and turns the caller's 1-based `CurrentPage` into a 0-based index in place. It slices out the page, sorts that page stably by ISBN (descending when `SortDesc`) and maps it to responses.
- **The catalog rules** (`BookService`). These are the text filter over short description and title, the lookups by id and by ISBN, `AddBook` with its duplicate-ISBN check, and `UpdateBook`, which rewrites three fields of one book.

The store is an in-memory sequence of books held by a class (`Catalog.BookService`), and a database commit is the update of that field. `GridRequest` is a class because the grid service changes the caller's object. Books, responses and errors are datatypes. An exception is a `Failure` value of kind `ServiceError`, and a null object argument is `None` or `null`.

Modules:

- `Wrappers`: Option and Result.
- `Int32`: C# `int` and unchecked multiplication.
- `Strings`: ASCII lower-casing, substring search, and ordinal string order.
- `Seqs`: LINQ `Where` as `Filter`, and reversal.
- `Entities`: the records and the request class.
- `IsbnSort`: the stable sort by ISBN that LINQ `OrderBy`/`OrderByDescending` perform.
- `BookGrid`: `BookGridService.cs`.
- `Catalog`: `BookService.cs`.
- `GridScenarios`: the grid service's unit tests, restated as client methods.

## Model

| member | source | states |
|---|---|---|
| `Int32.Wrap` | TechLibrary/Services/BookGridService.cs:54 | truncation to 32 bits is congruent to the exact value modulo 2^32 and is the identity on values in `int` range |
| `Int32.MulUnchecked` | TechLibrary/Services/BookGridService.cs:54 | the unchecked `int` product agrees with the exact product modulo 2^32, and equals it when that fits in `int` |
| `Strings.LowerChar` | TechLibrary/Services/BookService.cs:48-49 | `ToLower` maps 'A'..'Z' to the letter 32 code points higher and leaves every other character alone |
| `Strings.ContainsIff` | TechLibrary/Services/BookService.cs:48-49 | `Contains` succeeds exactly when the needle occurs at some index of the haystack |
| `Strings.LessIrreflexive` | TechLibrary/Services/BookGridService.cs:82-84 | no ISBN sorts strictly before itself |
| `Strings.LessTransitive` | TechLibrary/Services/BookGridService.cs:82-84 | the ISBN order is transitive |
| `Strings.LessTotal` | TechLibrary/Services/BookGridService.cs:82-84 | any two different ISBNs are ordered one way or the other |
| `Strings.LessAsymmetric` | TechLibrary/Services/BookGridService.cs:82-84 | two ISBNs are never each before the other |
| `Seqs.FilterMembers` | TechLibrary/Services/BookService.cs:47-50 | `Where` keeps exactly the elements that satisfy the predicate, none more often than in the input |
| `Seqs.FilterConcat` | TechLibrary/Services/BookService.cs:47-50 | `Where` keeps input order: it distributes over concatenation |
| `Seqs.FilterEmptyIff` | TechLibrary/Services/BookService.cs:68 | nothing is kept exactly when no position satisfies the predicate |
| `Seqs.FilterTwoIff` | TechLibrary/Services/BookService.cs:68 | two or more elements are kept exactly when two distinct positions satisfy the predicate |
| `Seqs.FilterReverse` | TechLibrary/Services/BookGridService.cs:82-84 | filtering commutes with reversal |
| `Entities.ToResponses` | TechLibrary/Services/BookGridService.cs:61 | the mapper yields one response per book, in the same order, each the field copy of its book |
| `Entities.GridRequest.constructor` | TechLibrary/ViewModels/GridRequest.cs:3-10 | a request holds exactly the page, page size, sort field, direction and filter it was built with |
| `IsbnSort.PrecedesNegTransitive` | TechLibrary/Services/BookGridService.cs:82-84 | "not strictly before" is transitive, so the ISBN order is a total preorder on books |
| `IsbnSort.InsertSorted` | TechLibrary/Services/BookGridService.cs:82-84 | inserting a book into a sorted list keeps it sorted |
| `IsbnSort.InsertWithIsbn` | TechLibrary/Services/BookGridService.cs:82-84 | an inserted book lands ahead of every book with the same ISBN, so equal keys keep input order |
| `IsbnSort.OrderByIsbn` | TechLibrary/Services/BookGridService.cs:82-84 | the sort returns a permutation of its input, ordered by ISBN ascending or descending, stable within each ISBN |
| `IsbnSort.SortedStableUnique` | TechLibrary/Services/BookGridService.cs:82-84 | two lists that are both sorted by ISBN and hold the same books per ISBN in the same order are equal |
| `IsbnSort.OrderByIsbnUnique` | TechLibrary/Services/BookGridService.cs:82-84 | any sorted, stable rearrangement of the input is exactly what the sort returns, as LINQ's `OrderBy` contract demands |
| `IsbnSort.DescendingIsReversedAscending` | TechLibrary.Test/TechLibrary.Test/Services/BookGridServiceTest.cs:243-249 | with distinct ISBNs, the descending sort is the ascending sort reversed |
| `BookGrid.Skip` | TechLibrary/Services/BookGridService.cs:54 | `Skip` returns a suffix; a count of zero or less skips nothing and a count past the end leaves nothing |
| `BookGrid.Take` | TechLibrary/Services/BookGridService.cs:55 | `Take` returns a prefix of length min(max(count, 0), n) |
| `BookGrid.PageIsSlice` | TechLibrary/Services/BookGridService.cs:53-55 | a page is the contiguous slice starting at PerPage * index, clipped to the list, and its length is min(PerPage, max(0, n - PerPage * index)) |
| `BookGrid.PagesTile` | TechLibrary/Services/BookGridService.cs:53-55 | consecutive pages laid end to end are a prefix of the list: no book is skipped or repeated |
| `BookGrid.PagesCoverAll` | TechLibrary/Services/BookGridService.cs:53-55 | pages 1 to ceil(n / PerPage) together hold exactly the whole list |
| `BookGrid.PageAsWrittenAgrees` | TechLibrary/Services/BookGridService.cs:54 | when PerPage * index fits in `int`, the page selected with 32-bit arithmetic is the intended one |
| `BookGrid.PageOverflowCounterexample` | TechLibrary/Services/BookGridService.cs:54 | for one book, PerPage 65536 and page index 32768, the code as written returns the book although the intended page is empty |
| `BookGrid.SortedPage` | TechLibrary/Services/BookGridService.cs:53-58 | the sorted page for 1-based page p has length min(PerPage, max(0, n - PerPage*(p-1))), is a permutation of that slice of the list, sorted by ISBN, and keeps the slice's order among books with equal ISBNs |
| `BookGrid.SortOrderedBooks` | TechLibrary/Services/BookGridService.cs:74-87 | argument-null exactly when the books or the request are null; otherwise a permutation of the books, sorted by ISBN in the requested direction and stable |
| `BookGrid.SortIgnoresSortBy` | TechLibrary/Services/BookGridService.cs:82-84 | two requests with the same direction give the same order whatever their `SortBy` |
| `BookGrid.GetBooksGrid` | TechLibrary/Services/BookGridService.cs:32-67 | on the guard path: response `{0, []}` and the request unchanged. Otherwise: total = whole list length, `CurrentPage` decremented by exactly one with the other request fields unchanged, books = the sorted page for the original page number, of length min(PerPage, max(0, n - PerPage*(p-1))) |
| `Catalog.GetFilteredBooks` | TechLibrary/Services/BookService.cs:40-53 | an empty filter returns the whole store; otherwise a book is kept exactly when its lower-cased short description or title contains the lower-cased filter; the result is a sub-collection of the store |
| `Catalog.FilteredBooksIff` | TechLibrary/Services/BookService.cs:47-50 | a book passes a non-empty filter exactly when the lower-cased filter occurs at some index of its lower-cased short description or title |
| `Catalog.FilterKeepsOrder` | TechLibrary/Services/BookService.cs:47-50 | the filtered books keep store order |
| `Catalog.FilterIdempotent` | TechLibrary/Services/BookService.cs:47-50 | filtering the filtered books again changes nothing |
| `Catalog.GetBookById` | TechLibrary/Services/BookService.cs:66-69 | null when no book has the id; the unique book with that id when exactly one has it; invalid-operation when two or more have it |
| `Catalog.FirstIsbnIndex` | TechLibrary/Services/BookService.cs:79-80 | the first position whose ISBN equals the argument ignoring case, or none when no ISBN does |
| `Catalog.GetBookByIsbn` | TechLibrary/Services/BookService.cs:75-81 | argument-null exactly for an empty ISBN; otherwise the first book whose ISBN equals it ignoring case, or null when none does |
| `Catalog.AddedBookIsFound` | TechLibrary/Services/BookService.cs:98-117 | appending a book whose ISBN is not taken keeps ISBNs distinct, and a lookup by that ISBN then returns the new book |
| `Catalog.ReviseBook` | TechLibrary/Services/BookService.cs:145-147 | the book with the id gets the request's short description, title and published date; every book keeps its id, ISBN, thumbnail and long description; other books are unchanged |
| `Catalog.UpdatedBookIsFound` | TechLibrary/Services/BookService.cs:138-147 | an update keeps ids unique and ISBNs distinct, and a lookup by the id returns the revised book |
| `Catalog.BookService.constructor` | TechLibrary/Services/BookService.cs:29-34 | a service over a store with unique, positive ids below the identity counter |
| `Catalog.BookService.AddBook` | TechLibrary/Services/BookService.cs:88-125 | null request or empty ISBN: argument-null, store unchanged. ISBN taken ignoring case: `IsValid` false, `IsSuccessful` false, store unchanged. Otherwise exactly one new row is appended, built from the request with a fresh id, and both flags are true. ISBN distinctness is preserved |
| `Catalog.BookService.UpdateBook` | TechLibrary/Services/BookService.cs:131-152 | null request: argument-null. Unknown id: invalid-operation. In both cases the store is unchanged. Otherwise only the three editable fields of that book change, and the result is true |
| `GridScenarios.FirstPageOfHundred` | TechLibrary.Test/TechLibrary.Test/Services/BookGridServiceTest.cs:49-76 | 100 books, page 1 of 10: total 100, ten books |
| `GridScenarios.NullRequestAndList` | TechLibrary.Test/TechLibrary.Test/Services/BookGridServiceTest.cs:79-95 | null request and list: total 0, no books |
| `GridScenarios.NegativePaging` | TechLibrary.Test/TechLibrary.Test/Services/BookGridServiceTest.cs:99-126 | page -1 of size -2: total 0, no books, request page unchanged |
| `GridScenarios.ShortFirstPage` | TechLibrary.Test/TechLibrary.Test/Services/BookGridServiceTest.cs:131-158 | 7 books, page 1 of 10: total 7, seven books, request page becomes 0 |
| `GridScenarios.PartialLastPage` | TechLibrary.Test/TechLibrary.Test/Services/BookGridServiceTest.cs:161-188 | 14 books, page 2 of 10: total 14, four books |
| `GridScenarios.PagePastTheEnd` | TechLibrary.Test/TechLibrary.Test/Services/BookGridServiceTest.cs:192-219 | 14 books, page 10 of 10: total 14, no books |

## Left out

- BookGrid.GetBooksGrid: computes the skip count `PerPage * (CurrentPage - 1)` exactly, not with 32-bit wrap-around (see Findings). Whenever that product fits in `int`, the two agree (`BookGrid.PageAsWrittenAgrees`).
- Entity persistence is not modelled: EF Core, `DbSet`, `SaveChangesAsync` and async/await. The store is a sequence in insertion order, and a commit is the assignment to it. Store failures and the order a SQL query without `ORDER BY` would return are not modelled.
- Catalog.BookService.UpdateBook: replaces the book value in the sequence instead of mutating a tracked entity object, so aliasing of that object is not modelled.
- Catalog.BookService.AddBook: the store-assigned id is a counter (`nextId`). How the database really generates identities is not modelled.
- `GetBooksAsync` has no member of its own: it returns the store's contents, which is the `books` field itself. `Catalog.GetFilteredBooks` with an empty filter returns exactly that.
- String comparisons are culture-sensitive in .NET, and after SQL translation they follow the column collation. The model uses ASCII-only `ToLower` and ordinal (character-code) order for sorting by ISBN. For digit-only ISBNs such as EAN-13 codes the two orders agree.
- Null strings are not modelled. `IsNullOrEmpty` treats a null filter or ISBN like the empty string, so the empty case covers both. A stored book whose title or short description is null is not modelled.
- The object-mapper profile is not part of this model. `Entities.ToResponse` assumes the plain field copy: id, ISBN, title, short description as `Descr`, and published date.
- `InvalidBookId` and `MoreThanOneMatch` are both `InvalidOperationException` in the code. The exception messages are not modelled, except the argument-null parameter names.
- Not modelled: `BooksController` (HTTP dispatch and catching exceptions into `BadRequest`), `ErrorStoreService` (exception logging), the web front end's routes and the fake-data generation in the tests.
- The source has no page cache and no id-offset pagination, so the model has neither.
- `BookServiceTest.cs` calls a `GetBooksGridRequest` method that the service does not define, so its tests are not modelled.

## Findings

| source | as written | input that shows it | evidently intended | confidence | as-written member | corrected member |
|---|---|---|---|---|---|---|
| TechLibrary/Services/BookGridService.cs:54 | `Skip(PerPage * CurrentPage)` multiplies two `int`s unchecked. A product of 2^31 or more wraps, and `Skip` with a negative count skips nothing | one book, `PerPage` = 65536, `CurrentPage` = 32769: the skip count 65536 * 32768 = 2^31 wraps to -2^31, so the response holds the book | a page past the end of the list is empty: length min(PerPage, max(0, n - PerPage*(CurrentPage-1))) | not executed; holds under C#'s default unchecked arithmetic (a build with overflow checking would throw instead) | `BookGrid.PageOverflowCounterexample` | `BookGrid.PageIsSlice` |
