/** The records the services read and produce: the `Book` entity, the
    `BookResponse` view model, the add-book reply, the grid request and the
    grid response. */
module Entities {
  import opened Wrappers
  import opened Int32

  /** A row of the Books table. `thumbnailUrl` and `longDescr` are optional
      because a book created by `AddBook` leaves them null. */
  datatype Book = Book(
    bookId: int,
    title: string,
    isbn: string,
    publishedDate: string,
    thumbnailUrl: Option<string>,
    shortDescr: string,
    longDescr: Option<string>)

  /** The client-facing shape of a book; `descr` carries the short
      description. */
  datatype BookResponse = BookResponse(
    bookId: int,
    isbn: string,
    title: string,
    descr: string,
    publishedDate: string)

  /** The reply of `AddBook`; both flags default to false. */
  datatype NewBookResponse = NewBookResponse(isValid: bool, isSuccessful: bool)

  /** The grid reply: the count before pagination and one page of books. */
  datatype GridResponse = GridResponse(totalBooks: int, bookResponses: seq<BookResponse>)

  /** A freshly constructed grid reply: no books, total zero. */
  const EmptyGridResponse := GridResponse(0, [])

  /** The exceptions the services throw. `InvalidBookId` and
      `MoreThanOneMatch` are both an `InvalidOperationException` in the
      source; they are kept apart here to say which check raised it. */
  datatype ServiceError =
    | ArgumentNull(paramName: string)
    | InvalidBookId(bookId: int)
    | MoreThanOneMatch

  /** The grid parameters sent by the client. The grid service decrements
      `currentPage` of the caller's object, so it is a class. */
  class GridRequest {
    var currentPage: int32
    var perPage: int32
    var sortBy: string
    var sortDesc: bool
    var filter: string

    constructor (currentPage: int32, perPage: int32, sortBy: string, sortDesc: bool, filter: string)
      ensures this.currentPage == currentPage && this.perPage == perPage
      ensures this.sortBy == sortBy && this.sortDesc == sortDesc && this.filter == filter
    {
      this.currentPage := currentPage;
      this.perPage := perPage;
      this.sortBy := sortBy;
      this.sortDesc := sortDesc;
      this.filter := filter;
    }
  }

  /** The Book-to-BookResponse field copy done by the object mapper. */
  function ToResponse(b: Book): BookResponse {
    BookResponse(b.bookId, b.isbn, b.title, b.shortDescr, b.publishedDate)
  }

  /** The mapper applied to a list: same length, same order. */
  function ToResponses(s: seq<Book>): (r: seq<BookResponse>)
    ensures |r| == |s|
    ensures forall i :: 0 <= i < |s| ==> r[i] == ToResponse(s[i])
  {
    seq(|s|, i requires 0 <= i < |s| => ToResponse(s[i]))
  }
}
