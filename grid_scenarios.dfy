/** The grid service's unit-test scenarios, each stated as the contract of a
    client of `BookGrid.GetBooksGrid`: from the grid method's contract alone
    the expected total and page length follow. */
module GridScenarios {
  import opened Wrappers
  import opened Entities
  import opened BookGrid

  /** `n` books with ids 0 to n - 1 (the fields the grid does not read are
      left empty). */
  function SampleBooks(n: nat): (r: seq<Book>)
    ensures |r| == n
  {
    seq(n, i => Book(i, "", "", "", None, "", None))
  }

  /** 100 books, page 1 of size 10: total 100, ten books. */
  method FirstPageOfHundred() returns (response: GridResponse)
    ensures response.totalBooks == 100 && |response.bookResponses| == 10
  {
    var request := new GridRequest(1, 10, "", false, "");
    response := GetBooksGrid(request, Some(SampleBooks(100)));
  }

  /** Null request and null list: the empty response. */
  method NullRequestAndList() returns (response: GridResponse)
    ensures response.totalBooks == 0 && |response.bookResponses| == 0
  {
    response := GetBooksGrid(null, None);
  }

  /** Page -1 of size -2: the empty response, and the request is left as
      it was. */
  method NegativePaging() returns (response: GridResponse, pageAfter: int)
    ensures response.totalBooks == 0 && |response.bookResponses| == 0
    ensures pageAfter == -1
  {
    var request := new GridRequest(-1, -2, "", false, "");
    response := GetBooksGrid(request, Some(SampleBooks(100)));
    pageAfter := request.currentPage as int;
  }

  /** 7 books, page 1 of size 10: total 7, all seven books; the caller's
      page number becomes the 0-based index 0. */
  method ShortFirstPage() returns (response: GridResponse, pageAfter: int)
    ensures response.totalBooks == 7 && |response.bookResponses| == 7
    ensures pageAfter == 0
  {
    var request := new GridRequest(1, 10, "", false, "");
    response := GetBooksGrid(request, Some(SampleBooks(7)));
    pageAfter := request.currentPage as int;
  }

  /** 14 books, page 2 of size 10: total 14, the last four books. */
  method PartialLastPage() returns (response: GridResponse)
    ensures response.totalBooks == 14 && |response.bookResponses| == 4
  {
    var request := new GridRequest(2, 10, "", false, "");
    response := GetBooksGrid(request, Some(SampleBooks(14)));
  }

  /** 14 books, page 10 of size 10: total still 14, no books. */
  method PagePastTheEnd() returns (response: GridResponse)
    ensures response.totalBooks == 14 && |response.bookResponses| == 0
  {
    var request := new GridRequest(10, 10, "", false, "");
    response := GetBooksGrid(request, Some(SampleBooks(14)));
  }
}
