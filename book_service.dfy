/** The catalog rules of the book service over an in-memory store: the text
    filter, the lookups by id and by ISBN, adding a book with an ISBN
    duplicate check, and updating a book's editable fields. */
module Catalog {
  import opened Wrappers
  import opened Entities
  import opened Strings
  import Seqs

  /** The filter test of lines 47-49: the lower-cased short description or
      title contains the lower-cased filter text. */
  predicate MatchesFilter(b: Book, filter: string) {
    Contains(ToLower(b.shortDescr), ToLower(filter)) || Contains(ToLower(b.title), ToLower(filter))
  }

  function Matching(filter: string): Book -> bool {
    (b: Book) => MatchesFilter(b, filter)
  }

  /** `GetFilteredBooks`: an empty filter returns the whole store (as
      `GetBooksAsync` does); otherwise the books that match, in store
      order. */
  function GetFilteredBooks(books: seq<Book>, filter: string): (r: seq<Book>)
    ensures filter == [] ==> r == books
    ensures filter != [] ==> forall b :: b in r <==> b in books && MatchesFilter(b, filter)
    ensures multiset(r) <= multiset(books)
  {
    if filter == [] then books
    else
      Seqs.FilterMembers(books, Matching(filter));
      Seqs.Filter(books, Matching(filter))
  }

  /** A book passes a non-empty filter exactly when the lower-cased filter
      occurs at some position of its lower-cased short description or
      title. */
  lemma FilteredBooksIff(books: seq<Book>, filter: string, b: Book)
    requires filter != []
    ensures b in GetFilteredBooks(books, filter) <==>
            b in books &&
            ((exists i :: OccursAt(ToLower(b.shortDescr), ToLower(filter), i)) ||
             (exists i :: OccursAt(ToLower(b.title), ToLower(filter), i)))
  {
    ContainsIff(ToLower(b.shortDescr), ToLower(filter));
    ContainsIff(ToLower(b.title), ToLower(filter));
  }

  /** Filtering keeps store order: the filter of a concatenation is the
      concatenation of the filters. */
  lemma FilterKeepsOrder(a: seq<Book>, b: seq<Book>, filter: string)
    ensures GetFilteredBooks(a + b, filter) == GetFilteredBooks(a, filter) + GetFilteredBooks(b, filter)
  {
    if filter != [] {
      Seqs.FilterConcat(a, b, Matching(filter));
    }
  }

  /** Filtering twice with the same text changes nothing. */
  lemma FilterIdempotent(books: seq<Book>, filter: string)
    ensures GetFilteredBooks(GetFilteredBooks(books, filter), filter) == GetFilteredBooks(books, filter)
  {
    if filter != [] {
      Seqs.FilterIdempotent(books, Matching(filter));
    }
  }

  function IdIs(id: int): Book -> bool {
    (b: Book) => b.bookId == id
  }

  predicate HasBookId(books: seq<Book>, id: int) {
    exists i :: 0 <= i < |books| && books[i].bookId == id
  }

  /** `GetBookByIdAsync` (`SingleOrDefault`): no book with the id gives null,
      exactly one gives that book, two or more raise an
      invalid-operation error. */
  function GetBookById(books: seq<Book>, id: int): (r: Result<Option<Book>, ServiceError>)
    ensures r == Success(None) <==> !HasBookId(books, id)
    ensures r.Failure? <==>
            exists i, j :: 0 <= i < j < |books| && books[i].bookId == id && books[j].bookId == id
    ensures r.Failure? ==> r.error == MoreThanOneMatch
    ensures r.Success? && r.value.Some? ==>
            r.value.value in books &&
            forall i :: 0 <= i < |books| && books[i].bookId == id ==> books[i] == r.value.value
  {
    var matches := Seqs.Filter(books, IdIs(id));
    Seqs.FilterEmptyIff(books, IdIs(id));
    Seqs.FilterTwoIff(books, IdIs(id));
    Seqs.FilterMembers(books, IdIs(id));
    if |matches| == 0 then Success(None)
    else if |matches| == 1 then
      assert matches[0] in matches;
      assert forall i :: 0 <= i < |books| && books[i].bookId == id ==> books[i] == matches[0] by {
        forall i | 0 <= i < |books| && books[i].bookId == id
          ensures books[i] == matches[0]
        {
          var k :| 0 <= k < |books| && books[k] == matches[0];
          assert books[k].bookId == id;
        }
      }
      Success(Some(matches[0]))
    else Failure(MoreThanOneMatch)
  }

  /** No two books of the store share an id (the table's primary key). */
  predicate IdsUnique(books: seq<Book>) {
    forall i, j :: 0 <= i < j < |books| ==> books[i].bookId != books[j].bookId
  }

  /** Some stored ISBN equals `isbn` ignoring case. */
  predicate IsbnTaken(books: seq<Book>, isbn: string) {
    exists i :: 0 <= i < |books| && EqualsIgnoreCase(books[i].isbn, isbn)
  }

  /** The position of the first book whose ISBN equals `isbn` ignoring
      case. */
  function FirstIsbnIndex(books: seq<Book>, isbn: string): (r: Option<nat>)
    ensures r.None? <==> !IsbnTaken(books, isbn)
    ensures r.Some? ==>
            r.value < |books| && EqualsIgnoreCase(books[r.value].isbn, isbn) &&
            forall j :: 0 <= j < r.value ==> !EqualsIgnoreCase(books[j].isbn, isbn)
  {
    if books == [] then None
    else if EqualsIgnoreCase(books[0].isbn, isbn) then Some(0)
    else
      match FirstIsbnIndex(books[1..], isbn)
      case None =>
        assert forall j :: 1 <= j < |books| ==> books[j] == books[1..][j - 1];
        None
      case Some(i) =>
        assert forall j :: 1 <= j < i + 1 ==> books[j] == books[1..][j - 1];
        Some(i + 1)
  }

  /** `GetBookByIsbnAsync`: an empty ISBN raises an argument-null error;
      otherwise the first book whose ISBN equals it ignoring case, or null. */
  function GetBookByIsbn(books: seq<Book>, isbn: string): (r: Result<Option<Book>, ServiceError>)
    ensures r.Failure? <==> isbn == []
    ensures r.Failure? ==> r.error == ArgumentNull("isbn")
    ensures r == Success(None) <==> isbn != [] && !IsbnTaken(books, isbn)
    ensures r.Success? && r.value.Some? ==>
            exists i :: 0 <= i < |books| && books[i] == r.value.value &&
                        EqualsIgnoreCase(books[i].isbn, isbn) &&
                        forall j :: 0 <= j < i ==> !EqualsIgnoreCase(books[j].isbn, isbn)
  {
    if isbn == [] then Failure(ArgumentNull("isbn"))
    else
      match FirstIsbnIndex(books, isbn)
      case None => Success(None)
      case Some(i) => Success(Some(books[i]))
  }

  /** No two stored ISBNs are equal ignoring case. The store does not enforce
      this; `AddBook` keeps it. */
  predicate IsbnsDistinct(books: seq<Book>) {
    forall i, j :: 0 <= i < j < |books| ==> !EqualsIgnoreCase(books[i].isbn, books[j].isbn)
  }

  /** The row `AddBook` creates from a request: ISBN, title, published date
      and short description from the request, the id the store assigns,
      thumbnail and long description null. */
  function NewBook(id: int, request: BookResponse): Book {
    Book(id, request.title, request.isbn, request.publishedDate, None, request.descr, None)
  }

  /** Adding a book whose ISBN is not taken keeps ISBNs distinct, and a
      lookup by that ISBN then finds the new book. */
  lemma {:induction false} AddedBookIsFound(books: seq<Book>, b: Book)
    requires b.isbn != [] && !IsbnTaken(books, b.isbn)
    ensures IsbnsDistinct(books) ==> IsbnsDistinct(books + [b])
    ensures GetBookByIsbn(books + [b], b.isbn) == Success(Some(b))
  {
    var s := books + [b];
    assert EqualsIgnoreCase(s[|books|].isbn, b.isbn);
    assert forall j :: 0 <= j < |books| ==> s[j] == books[j];
    match FirstIsbnIndex(s, b.isbn)
    case None =>
      assert IsbnTaken(s, b.isbn);
    case Some(i) =>
      if i < |books| {
        assert IsbnTaken(books, b.isbn);
      }
  }

  /** The store after `UpdateBook`: the book with the request's id gets the
      request's short description, title and published date. */
  function Revised(b: Book, u: BookResponse): Book {
    b.(shortDescr := u.descr, title := u.title, publishedDate := u.publishedDate)
  }

  function ReviseBook(books: seq<Book>, u: BookResponse): (r: seq<Book>)
    ensures |r| == |books|
    ensures forall i :: 0 <= i < |books| && books[i].bookId != u.bookId ==> r[i] == books[i]
    ensures forall i :: 0 <= i < |books| && books[i].bookId == u.bookId ==>
              r[i].shortDescr == u.descr && r[i].title == u.title && r[i].publishedDate == u.publishedDate
    ensures forall i :: 0 <= i < |books| ==>
              r[i].bookId == books[i].bookId && r[i].isbn == books[i].isbn &&
              r[i].thumbnailUrl == books[i].thumbnailUrl && r[i].longDescr == books[i].longDescr
  {
    seq(|books|, i requires 0 <= i < |books| =>
      if books[i].bookId == u.bookId then Revised(books[i], u) else books[i])
  }

  /** An update changes no id and no ISBN, so id uniqueness and ISBN
      distinctness survive it, and a lookup by the id finds the revised
      book. */
  lemma UpdatedBookIsFound(books: seq<Book>, u: BookResponse)
    requires IdsUnique(books) && HasBookId(books, u.bookId)
    ensures IdsUnique(ReviseBook(books, u))
    ensures IsbnsDistinct(books) ==> IsbnsDistinct(ReviseBook(books, u))
    ensures GetBookById(books, u.bookId).Success?
    ensures GetBookById(ReviseBook(books, u), u.bookId)
            == Success(Some(Revised(GetBookById(books, u.bookId).value.value, u)))
  {
    var r := ReviseBook(books, u);
    var i :| 0 <= i < |books| && books[i].bookId == u.bookId;
    assert r[i] == Revised(books[i], u);
    assert HasBookId(r, u.bookId);
  }

  /** The store: the Books table as a sequence in insertion order, and the
      identity counter that numbers new rows. */
  class BookService {
    var books: seq<Book>
    var nextId: int

    ghost predicate Valid()
      reads this
    {
      && 0 < nextId
      && IdsUnique(books)
      && forall i :: 0 <= i < |books| ==> 0 < books[i].bookId < nextId
    }

    constructor (seed: seq<Book>, nextId: int)
      requires 0 < nextId && IdsUnique(seed)
      requires forall i :: 0 <= i < |seed| ==> 0 < seed[i].bookId < nextId
      ensures Valid()
      ensures books == seed && this.nextId == nextId
    {
      books := seed;
      this.nextId := nextId;
    }

    /** `AddBook`. A null request or an empty ISBN raises argument-null and a
        taken ISBN answers "not valid", all three leaving the store as it
        was; otherwise exactly one new row is appended and both flags are
        set. */
    method AddBook(bookResponse: Option<BookResponse>) returns (r: Result<NewBookResponse, ServiceError>)
      requires Valid()
      modifies this
      ensures Valid()
      ensures bookResponse.None? ==> r == Failure(ArgumentNull("bookResponse")) && unchanged(this)
      ensures bookResponse.Some? && bookResponse.value.isbn == [] ==>
                r == Failure(ArgumentNull("isbn")) && unchanged(this)
      ensures bookResponse.Some? && bookResponse.value.isbn != [] && IsbnTaken(old(books), bookResponse.value.isbn) ==>
                r == Success(NewBookResponse(false, false)) && unchanged(this)
      ensures bookResponse.Some? && bookResponse.value.isbn != [] && !IsbnTaken(old(books), bookResponse.value.isbn) ==>
                && r == Success(NewBookResponse(true, true))
                && books == old(books) + [NewBook(old(nextId), bookResponse.value)]
                && nextId == old(nextId) + 1
                && GetBookByIsbn(books, bookResponse.value.isbn) == Success(Some(books[|books| - 1]))
                && GetBookById(books, old(nextId)) == Success(Some(books[|books| - 1]))
      ensures old(IsbnsDistinct(books)) ==> IsbnsDistinct(books)
    {
      if bookResponse.None? {
        return Failure(ArgumentNull("bookResponse"));
      }
      var request := bookResponse.value;
      var response := NewBookResponse(false, false);
      var isIsbnValid := GetBookByIsbn(books, request.isbn);
      if isIsbnValid.Failure? {
        return Failure(isIsbnValid.error);
      }
      if isIsbnValid.value.Some? {
        response := response.(isValid := false);
        return Success(response);
      }
      var newBook := NewBook(nextId, request);
      AddedBookIsFound(books, newBook);
      assert !HasBookId(books, nextId);
      books := books + [newBook];
      nextId := nextId + 1;
      assert books[|books| - 1] == newBook;
      response := response.(isSuccessful := true, isValid := true);
      return Success(response);
    }

    /** `UpdateBook`. A null request raises argument-null and an unknown id
        raises invalid-operation, both leaving the store as it was;
        otherwise the book with that id gets the request's short
        description, title and published date, every other field and every
        other book stay the same, and the answer is true. */
    method UpdateBook(updatedBook: Option<BookResponse>) returns (r: Result<bool, ServiceError>)
      requires Valid()
      modifies this
      ensures Valid()
      ensures nextId == old(nextId)
      ensures updatedBook.None? ==> r == Failure(ArgumentNull("updatedBook")) && books == old(books)
      ensures updatedBook.Some? && !HasBookId(old(books), updatedBook.value.bookId) ==>
                r == Failure(InvalidBookId(updatedBook.value.bookId)) && books == old(books)
      ensures updatedBook.Some? && HasBookId(old(books), updatedBook.value.bookId) ==>
                r == Success(true) && books == ReviseBook(old(books), updatedBook.value)
      ensures old(IsbnsDistinct(books)) ==> IsbnsDistinct(books)
    {
      if updatedBook.None? {
        return Failure(ArgumentNull("updatedBook"));
      }
      var u := updatedBook.value;
      var selectedBook := GetBookById(books, u.bookId);
      assert selectedBook.Success?;
      if selectedBook.value.None? {
        return Failure(InvalidBookId(u.bookId));
      }
      UpdatedBookIsFound(books, u);
      books := ReviseBook(books, u);
      return Success(true);
    }
  }
}
