/** The grid listing engine: guard, total count, page selection, sort by
    ISBN and projection to the client shape, plus the sort entry point with
    its null checks. */
module BookGrid {
  import opened Wrappers
  import opened Int32
  import opened Entities
  import IsbnSort

  function Min(a: int, b: int): int {
    if a <= b then a else b
  }

  function Max(a: int, b: int): int {
    if a >= b then a else b
  }

  /** LINQ `Skip(count)`: a count of zero or less skips nothing, a count past
      the end leaves nothing. */
  function Skip<T>(s: seq<T>, count: int): (r: seq<T>)
    ensures |r| == |s| - Min(Max(count, 0), |s|)
    ensures r == s[|s| - |r|..]
  {
    if count <= 0 then s else if count >= |s| then [] else s[count..]
  }

  /** LINQ `Take(count)`: a count of zero or less takes nothing. */
  function Take<T>(s: seq<T>, count: int): (r: seq<T>)
    ensures |r| == Min(Max(count, 0), |s|)
    ensures r == s[..|r|]
  {
    if count <= 0 then [] else if count >= |s| then s else s[..count]
  }

  /** The selection of lines 53-55 as the code computes it: the skip count
      `PerPage * CurrentPage` is an unchecked 32-bit product. */
  function PageAsWritten(all: seq<Book>, perPage: int32, pageIndex: int32): seq<Book> {
    Take(Skip(all, MulUnchecked(perPage, pageIndex) as int), perPage as int)
  }

  /** The selection the code means: skip `perPage * pageIndex` books, exactly,
      then take `perPage`. */
  function Page(all: seq<Book>, perPage: int, pageIndex: int): seq<Book> {
    Take(Skip(all, perPage * pageIndex), perPage)
  }

  /** A page is the contiguous slice of the list that starts at
      `perPage * pageIndex`, clipped to the end of the list. */
  lemma PageIsSlice(all: seq<Book>, perPage: int, pageIndex: int)
    requires perPage > 0 && pageIndex >= 0
    ensures perPage * pageIndex >= 0
    ensures Page(all, perPage, pageIndex)
            == all[Min(|all|, perPage * pageIndex)..Min(|all|, perPage * pageIndex + perPage)]
    ensures |Page(all, perPage, pageIndex)| == Min(perPage, Max(0, |all| - perPage * pageIndex))
  {
  }

  lemma SliceConcat<T>(s: seq<T>, lo: int, hi: int)
    requires 0 <= lo <= hi <= |s|
    ensures s[..lo] + s[lo..hi] == s[..hi]
  {
  }

  /** The first `count` pages laid end to end. */
  function Pages(all: seq<Book>, perPage: int, count: nat): seq<Book> {
    if count == 0 then [] else Pages(all, perPage, count - 1) + Page(all, perPage, count - 1)
  }

  /** Consecutive pages tile the list: no book is skipped or repeated. */
  lemma {:induction false} PagesTile(all: seq<Book>, perPage: int, count: nat)
    requires perPage > 0
    ensures Pages(all, perPage, count) == all[..Min(|all|, perPage * count)]
  {
    if count > 0 {
      PagesTile(all, perPage, count - 1);
      PageIsSlice(all, perPage, count - 1);
      var before, upTo := perPage * (count - 1), perPage * count;
      assert upTo == before + perPage;
      SliceConcat(all, Min(|all|, before), Min(|all|, upTo));
    }
  }

  /** The pages numbered 1 to ceil(n / perPage) hold the whole list. */
  lemma PagesCoverAll(all: seq<Book>, perPage: int)
    requires perPage > 0
    ensures Pages(all, perPage, (|all| + perPage - 1) / perPage) == all
  {
    var q := (|all| + perPage - 1) / perPage;
    var rem := (|all| + perPage - 1) % perPage;
    assert |all| + perPage - 1 == perPage * q + rem;
    PagesTile(all, perPage, q);
  }

  /** With no overflow in the skip count, the code selects the intended
      page. */
  lemma PageAsWrittenAgrees(all: seq<Book>, perPage: int32, pageIndex: int32)
    requires InRange(perPage as int * pageIndex as int)
    ensures PageAsWritten(all, perPage, pageIndex) == Page(all, perPage as int, pageIndex as int)
  {
  }

  /** The overflow: for a one-book list, page 32769 of size 65536 lies far
      past the end, but the skip count 65536 * 32768 = 2^31 wraps to -2^31,
      LINQ skips nothing, and the book is returned. */
  lemma PageOverflowCounterexample(b: Book)
    ensures |PageAsWritten([b], 65536, 32768)| == 1
    ensures Page([b], 65536, 32768) == []
  {
    assert MulUnchecked(65536, 32768) as int == -0x8000_0000;
  }

  /** The sorted page that lines 53-58 produce for the 1-based page
      `currentPage`. */
  function SortedPage(all: seq<Book>, perPage: int, currentPage: int, desc: bool): (r: seq<Book>)
    requires perPage > 0 && currentPage > 0
    ensures |r| == Min(perPage, Max(0, |all| - perPage * (currentPage - 1)))
    ensures perPage * (currentPage - 1) >= 0
    ensures multiset(r)
            == multiset(all[Min(|all|, perPage * (currentPage - 1))..Min(|all|, perPage * currentPage)])
    ensures IsbnSort.Sorted(r, desc)
    ensures IsbnSort.Stable(r, all[Min(|all|, perPage * (currentPage - 1))..Min(|all|, perPage * currentPage)])
  {
    var pageIndex := currentPage - 1;
    var skipped := perPage * pageIndex;
    PageIsSlice(all, perPage, pageIndex);
    assert skipped + perPage == perPage * currentPage;
    var page := Page(all, perPage, pageIndex);
    assert page == all[Min(|all|, skipped)..Min(|all|, perPage * currentPage)];
    assert |page| == Min(perPage, Max(0, |all| - skipped));
    IsbnSort.OrderByIsbn(page, desc)
  }

  /** `SortOrderedBooks`: either argument null is an argument-null error;
      otherwise the books sorted by ISBN, descending when `SortDesc`, stable
      on equal ISBNs. `SortBy` is not read. */
  function SortOrderedBooks(queryable: Option<seq<Book>>, gridRequest: GridRequest?): (r: Result<seq<Book>, ServiceError>)
    reads gridRequest
    ensures r.Failure? <==> queryable.None? || gridRequest == null
    ensures r.Failure? ==> r.error == ArgumentNull("gridRequest")
    ensures r.Success? ==> multiset(r.value) == multiset(queryable.value)
    ensures r.Success? ==> IsbnSort.Sorted(r.value, gridRequest.sortDesc)
    ensures r.Success? ==> IsbnSort.Stable(r.value, queryable.value)
  {
    if queryable.None? || gridRequest == null then Failure(ArgumentNull("gridRequest"))
    else Success(IsbnSort.OrderByIsbn(queryable.value, gridRequest.sortDesc))
  }

  /** The sort direction is the only request field the sort consults. */
  lemma SortIgnoresSortBy(books: seq<Book>, r1: GridRequest, r2: GridRequest)
    requires r1.sortDesc == r2.sortDesc
    ensures SortOrderedBooks(Some(books), r1) == SortOrderedBooks(Some(books), r2)
  {
  }

  /** The guard of lines 37-38: a request or list that is null, an empty
      list, or a page number or page size that is not positive. */
  predicate Rejected(gridRequest: GridRequest?, allBooks: Option<seq<Book>>)
    reads gridRequest
  {
    gridRequest == null || allBooks.None? || |allBooks.value| == 0
    || gridRequest.perPage <= 0 || gridRequest.currentPage <= 0
  }

  /** `GetBooksGridAsync`. A rejected request gives the empty response and
      leaves the request alone. Otherwise the total is the whole list's
      length, the caller's `CurrentPage` goes down by one, and the books are
      the requested page sorted by ISBN, mapped to responses. */
  method GetBooksGrid(gridRequest: GridRequest?, allBooks: Option<seq<Book>>) returns (response: GridResponse)
    modifies gridRequest
    ensures old(Rejected(gridRequest, allBooks)) ==> response == EmptyGridResponse
    ensures old(Rejected(gridRequest, allBooks)) && gridRequest != null ==> unchanged(gridRequest)
    ensures !old(Rejected(gridRequest, allBooks)) ==>
      && gridRequest.currentPage as int == old(gridRequest.currentPage) as int - 1
      && gridRequest.perPage == old(gridRequest.perPage)
      && gridRequest.sortBy == old(gridRequest.sortBy)
      && gridRequest.sortDesc == old(gridRequest.sortDesc)
      && gridRequest.filter == old(gridRequest.filter)
      && response.totalBooks == |allBooks.value|
      && response.bookResponses
         == ToResponses(SortedPage(allBooks.value, old(gridRequest.perPage) as int,
                                   old(gridRequest.currentPage) as int, gridRequest.sortDesc))
      && |response.bookResponses|
         == Min(old(gridRequest.perPage) as int,
                Max(0, |allBooks.value| - old(gridRequest.perPage) as int * (old(gridRequest.currentPage) as int - 1)))
  {
    response := EmptyGridResponse;
    if gridRequest == null || allBooks.None? || |allBooks.value| == 0
       || gridRequest.perPage <= 0 || gridRequest.currentPage <= 0 {
      return;
    }
    var books := allBooks.value;
    response := response.(totalBooks := |books|);
    gridRequest.currentPage := gridRequest.currentPage - 1;
    var selectedBooks := Page(books, gridRequest.perPage as int, gridRequest.currentPage as int);
    var orderedBooks := SortOrderedBooks(Some(selectedBooks), gridRequest);
    assert orderedBooks.Success?;
    ghost var expected := SortedPage(books, gridRequest.perPage as int, gridRequest.currentPage as int + 1, gridRequest.sortDesc);
    assert orderedBooks.value == expected;
    response := response.(bookResponses := ToResponses(orderedBooks.value));
  }
}
