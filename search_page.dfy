/**
 * The search page of src/pages/Search.jsx: the search held in the shared
 * search state, the results and their total, the loading and error flags,
 * the current page, the effect run on arrival, the search handler, the retry
 * button, the pagination callback and the summary line.
 *
 * The catalogue request is the parameter `fetch` and `encodeURIComponent` the
 * parameter `encode`, as in the catalogue client.
 */
module SearchPage {

  import opened Wrappers
  import opened Books
  import Text
  import BooksApi
  import opened SearchForm
  import Pagination

  /** The message of the TypeError thrown by `formData.title.trim()` when the
      stored search has no title. */
  const MissingFieldMessage: string := "Cannot read properties of undefined (reading 'trim')"

  /** Results per page. */
  const PageSize: nat := 12

  /** The largest total the page keeps. */
  const MaxTotal: int := 150

  /** The stored search: none (`null`), the empty object `{}` left by a reset,
      or the data of a submitted form. */
  datatype StoredQuery = NullQuery | EmptyObject | Query(form: FormData)

  /** `Math.min(total, 150)`. */
  function SafeTotal(total: int): (t: int)
    ensures t <= MaxTotal
    ensures t == total || t == MaxTotal
    ensures total <= MaxTotal ==> t == total
  {
    if total < MaxTotal then total else MaxTotal
  }

  /** The index of the first result of a page. */
  function StartIndexFor(page: int): int {
    (page - 1) * PageSize
  }

  /** The search parameters of a page: the trimmed fields, 12 results, and the
      start index of the page. */
  function ParamsFor(d: FormData, page: int): BooksApi.SearchParams {
    BooksApi.SearchParams(Text.Trim(d.title), Text.Trim(d.author), Text.Trim(d.genre),
                          Some(PageSize as int), Some(StartIndexFor(page)))
  }

  /** Page `p` asks the catalogue for the 12 results from position `(p-1)*12`;
      each field is sent trimmed. */
  lemma RequestOfPage(d: FormData, page: int, encode: string -> string)
    ensures var r := BooksApi.RequestFor(ParamsFor(d, page), encode);
      && r.maxResults == PageSize
      && r.startIndex == (page - 1) * PageSize
      && r.q == BooksApi.Query(BooksApi.SearchParams(Text.Trim(d.title), Text.Trim(d.author), Text.Trim(d.genre), None, None), encode)
  {
  }

  /** The results of consecutive pages follow each other, and those of two
      different pages do not overlap. */
  lemma PagesDoNotOverlap(p: int, q: int)
    requires p < q
    ensures StartIndexFor(p + 1) == StartIndexFor(p) + PageSize
    ensures StartIndexFor(p) + PageSize <= StartIndexFor(q)
  {
  }

  /** Every page the bar offers for a kept total starts inside the results,
      hence before position 150. */
  lemma OfferedPagesStartInside(total: int, page: int)
    requires 0 <= total && 1 <= page <= Pagination.TotalPages(SafeTotal(total), PageSize)
    ensures StartIndexFor(page) < SafeTotal(total) <= MaxTotal
  {
    var n := Pagination.TotalPages(SafeTotal(total), PageSize);
    assert (page - 1) * PageSize <= (n - 1) * PageSize;
  }

  /** A form that passes validation always leads to a request: its trimmed
      fields are not all empty. */
  lemma SubmittedFormQueries(d: FormData, page: int, encode: string -> string, fetch: BooksApi.Request -> BooksApi.Outcome<BooksApi.SearchBody>)
    requires HasAnyValue(d)
    ensures BooksApi.QueryParts(ParamsFor(d, page), encode) != []
    ensures BooksApi.SearchBooks(ParamsFor(d, page), encode, fetch) ==
      match fetch(BooksApi.RequestFor(ParamsFor(d, page), encode))
      case Responded(body) => Success(BooksApi.Normalize(body))
      case Threw(t) => Failure(BooksApi.SearchErrorMessage(t))
  {
  }

  /** One summary part: nothing for an empty value, else `name: "value"`. */
  function SummaryPart(name: string, value: string): seq<string> {
    if value == "" then [] else [name + ": \"" + value + "\""]
  }

  /** The summary parts, in the order title, author, genre. */
  function SummaryParts(d: FormData): seq<string> {
    SummaryPart("title", d.title) + SummaryPart("author", d.author) + SummaryPart("genre", d.genre)
  }

  const SummaryPrefix: string := "Showing results for "

  /** `getSearchSummary`: empty without a search, else the prefix and the parts
      joined by `", "` (an empty object has no parts). */
  function SearchSummary(q: StoredQuery): string {
    match q
    case NullQuery => ""
    case EmptyObject => SummaryPrefix
    case Query(d) => SummaryPrefix + Text.Join(SummaryParts(d), ", ")
  }

  /** The summary lists exactly the non-empty fields, untrimmed, in the order
      title, author, genre. */
  lemma SummaryPartsShape(d: FormData)
    ensures var parts := SummaryParts(d);
      && |parts| == BooksApi.Indicator(d.title != "") + BooksApi.Indicator(d.author != "") + BooksApi.Indicator(d.genre != "")
      && (d.title != "" ==> parts[0] == "title: \"" + d.title + "\"")
      && (d.author != "" ==> parts[BooksApi.Indicator(d.title != "")] == "author: \"" + d.author + "\"")
      && (d.genre != "" ==> parts[|parts| - 1] == "genre: \"" + d.genre + "\"")
  {
  }

  /** A search with only a title reads `Showing results for title: "<title>"`. */
  lemma SummaryOfTitleOnly(d: FormData)
    requires d.title != "" && d.author == "" && d.genre == ""
    ensures SearchSummary(Query(d)) == SummaryPrefix + "title: \"" + d.title + "\""
  {
    assert "title" + ": \"" == "title: \"";
    var part := "title: \"" + d.title + "\"";
    assert SummaryParts(d) == [part];
    assert Text.Join([part], ", ") == part;
  }

  /** The summary of a submitted form names at least one field. */
  lemma SummaryOfSubmitted(d: FormData)
    requires HasAnyValue(d)
    ensures SummaryParts(d) != []
  {
    Text.TrimOfEmpty();
    assert d.title != "" || d.author != "" || d.genre != "";
  }

  /** The search page. */
  class SearchPageState {
    var searchQuery: StoredQuery
    var books: seq<Book>
    var totalItems: int
    var hasSearched: bool
    var isLoading: bool
    var error: Option<string>
    var currentPage: int

    /** After the arrival effect, results are shown only for a submitted
        search. */
    predicate Settled()
      reads this
    {
      hasSearched ==> searchQuery.Query?
    }

    /** The page as it is first drawn: the shared search state as it was left
        (`hasSearched` is whether a search is stored), not loading, no error,
        page 1. */
    constructor (query0: StoredQuery, books0: seq<Book>, total0: int)
      ensures searchQuery == query0 && books == books0 && totalItems == total0
      ensures hasSearched == !query0.NullQuery?
      ensures !isLoading && error == None && currentPage == 1
    {
      searchQuery := query0;
      books := books0;
      totalItems := total0;
      hasSearched := !query0.NullQuery?;
      isLoading := false;
      error := None;
      currentPage := 1;
    }

    /** The effect run on arrival: `?reset=true` forgets the search (leaving
        `{}`), the results and the total; without it, a missing or empty
        search clears the results, the total and `hasSearched`. */
    method ArrivalEffect(reset: bool)
      modifies this
      ensures Settled()
      ensures isLoading == old(isLoading) && error == old(error) && currentPage == old(currentPage)
      ensures reset ==> searchQuery == EmptyObject && books == [] && totalItems == 0 && !hasSearched
      ensures !reset && !old(searchQuery).Query? ==>
        searchQuery == old(searchQuery) && books == [] && totalItems == 0 && !hasSearched
      ensures !reset && old(searchQuery).Query? ==>
        searchQuery == old(searchQuery) && books == old(books) && totalItems == old(totalItems) && hasSearched == old(hasSearched)
    {
      if reset {
        searchQuery := EmptyObject;
        books := [];
        totalItems := 0;
        hasSearched := false;
        return;
      }
      if !searchQuery.Query? {
        hasSearched := false;
        books := [];
        totalItems := 0;
      }
    }

    /** The end of `handleSearch` once the catalogue has answered: a success
        shows the results, keeps at most 150 as the total and moves to the
        page; a failure shows its message with no results and leaves the page
        number; loading ends either way. */
    method ShowOutcome(result: Result<BooksApi.SearchResult, string>, page: int)
      modifies this
      ensures searchQuery == old(searchQuery) && hasSearched == old(hasSearched) && !isLoading
      ensures result.Success? ==>
        error == old(error) && books == result.value.books && totalItems == SafeTotal(result.value.totalItems) && currentPage == page
      ensures result.Failure? ==>
        error == Some(result.error) && books == [] && totalItems == 0 && currentPage == old(currentPage)
    {
      if result.Success? {
        books, totalItems, currentPage := result.value.books, SafeTotal(result.value.totalItems), page;
      } else {
        error, books, totalItems := Some(result.error), [], 0;
      }
      isLoading := false;
    }

    /** `handleSearch`: the form is stored and marked searched, the error is
        cleared and loading starts; then the outcome of the page's request is
        shown. */
    method HandleSearch(formData: FormData, page: int, encode: string -> string,
                        fetch: BooksApi.Request -> BooksApi.Outcome<BooksApi.SearchBody>)
      modifies this
      ensures Settled()
      ensures searchQuery == Query(formData) && hasSearched && !isLoading
      ensures var res := BooksApi.SearchBooks(ParamsFor(formData, page), encode, fetch);
        && (res.Success? ==>
              error == None && books == res.value.books && totalItems == SafeTotal(res.value.totalItems) && currentPage == page)
        && (res.Failure? ==>
              error == Some(res.error) && books == [] && totalItems == 0 && currentPage == old(currentPage))
    {
      isLoading, error, hasSearched, searchQuery := true, None, true, Query(formData);
      ShowOutcome(BooksApi.SearchBooks(ParamsFor(formData, page), encode, fetch), page);
    }

    /** The retry button of the error box: repeats the stored search from
        page 1; without a stored search it does nothing.  The `{}` left by a
        reset is truthy but has no fields, so the search starts and then fails
        on trimming a missing title. */
    method HandleRetry(encode: string -> string, fetch: BooksApi.Request -> BooksApi.Outcome<BooksApi.SearchBody>)
      modifies this
      ensures old(searchQuery).NullQuery? ==> unchanged(this)
      ensures old(searchQuery).EmptyObject? ==>
        && searchQuery == EmptyObject && hasSearched && !isLoading && currentPage == old(currentPage)
        && error == Some(MissingFieldMessage) && books == [] && totalItems == 0
      ensures old(searchQuery).Query? ==>
        && searchQuery == old(searchQuery) && hasSearched && !isLoading
        && var res := BooksApi.SearchBooks(ParamsFor(old(searchQuery).form, 1), encode, fetch);
           && (res.Success? ==>
                 error == None && books == res.value.books && totalItems == SafeTotal(res.value.totalItems) && currentPage == 1)
           && (res.Failure? ==>
                 error == Some(res.error) && books == [] && totalItems == 0 && currentPage == old(currentPage))
    {
      if searchQuery.Query? {
        HandleSearch(searchQuery.form, 1, encode, fetch);
      } else if searchQuery.EmptyObject? {
        isLoading, error, hasSearched := true, None, true;
        ShowOutcome(Failure(MissingFieldMessage), 1);
      }
    }

    /** A click in the pagination bar (shown only for a search with results and
        more than one page): a page the bar accepts becomes current at once and
        is fetched; on failure the new page number stays. */
    method ClickPage(page: int, encode: string -> string, fetch: BooksApi.Request -> BooksApi.Outcome<BooksApi.SearchBody>)
      requires Settled() && hasSearched && error.None? && Pagination.Renders(totalItems, PageSize)
      modifies this
      ensures Settled() && hasSearched
      ensures Pagination.PageChange(page, old(currentPage), Pagination.TotalPages(old(totalItems), PageSize)).None? ==> unchanged(this)
      ensures Pagination.PageChange(page, old(currentPage), Pagination.TotalPages(old(totalItems), PageSize)).Some? ==>
        && searchQuery == old(searchQuery) && currentPage == page && !isLoading
        && var res := BooksApi.SearchBooks(ParamsFor(old(searchQuery).form, page), encode, fetch);
           && (res.Success? ==> error == None && books == res.value.books && totalItems == SafeTotal(res.value.totalItems))
           && (res.Failure? ==> error == Some(res.error) && books == [] && totalItems == 0)
    {
      var target := Pagination.PageChange(page, currentPage, Pagination.TotalPages(totalItems, PageSize));
      if target.Some? {
        currentPage := page;
        HandleSearch(searchQuery.form, page, encode, fetch);
      }
    }
  }

  /** A search from the form, then a click on the next page whenever the bar is
      shown.  A failed first search shows its error; a success with a single
      page of results stays on page 1; otherwise the page ends on page 2
      showing what the second request returned, which starts 12 results
      after the first. */
  method SearchThenNextPage(page: SearchPageState, d: FormData, encode: string -> string,
                            fetch: BooksApi.Request -> BooksApi.Outcome<BooksApi.SearchBody>)
    requires HasAnyValue(d)
    modifies page
    ensures page.searchQuery == Query(d) && page.hasSearched && !page.isLoading
    ensures BooksApi.RequestFor(ParamsFor(d, 2), encode).startIndex
            == BooksApi.RequestFor(ParamsFor(d, 1), encode).startIndex + PageSize
    ensures var r1 := BooksApi.SearchBooks(ParamsFor(d, 1), encode, fetch);
      && (r1.Failure? ==> page.error == Some(r1.error) && page.books == [] && page.totalItems == 0)
      && (r1.Success? && !Pagination.Renders(SafeTotal(r1.value.totalItems), PageSize) ==>
            page.error == None && page.currentPage == 1 && page.books == r1.value.books)
      && (r1.Success? && Pagination.Renders(SafeTotal(r1.value.totalItems), PageSize) ==>
            var r2 := BooksApi.SearchBooks(ParamsFor(d, 2), encode, fetch);
            && page.currentPage == 2
            && (r2.Success? ==> page.error == None && page.books == r2.value.books
                                && page.totalItems == SafeTotal(r2.value.totalItems))
            && (r2.Failure? ==> page.error == Some(r2.error) && page.books == [] && page.totalItems == 0))
  {
    RequestOfPage(d, 1, encode);
    RequestOfPage(d, 2, encode);
    page.HandleSearch(d, 1, encode, fetch);
    if page.error.None? && Pagination.Renders(page.totalItems, PageSize) {
      Pagination.RenderedHasTwoPages(page.totalItems, PageSize);
      page.ClickPage(2, encode, fetch);
    }
  }
}
