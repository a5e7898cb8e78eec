/**
 * The catalogue client of src/Api/booksApi.js: the query string built from the
 * search fields, the paging limits, the normalisation of a response into book
 * records, and the turning of failures into fixed messages.
 *
 * The HTTP request is the parameter `fetch`: a function from the request to
 * its outcome (a response body or a thrown value).  `encodeURIComponent` is
 * the parameter `encode`.
 */
module BooksApi {

  import opened Wrappers
  import opened Books
  import Text

  const NoFieldMessage: string := "At least one search field must be provided"
  const TooManyRequestsMessage: string := "Too many requests. Please try again later."
  const TimeoutMessage: string := "Request timed out. Please try again."
  const NetworkMessage: string := "Network error. Please check your connection."
  const UnexpectedSearchMessage: string := "An unexpected error occurred while searching for books."
  const NotFoundMessage: string := "Book not found"
  const FetchDetailsMessage: string := "Failed to fetch book details"

  /** The default and the largest page size of a search. */
  const DefaultMaxResults: int := 12
  const MaxMaxResults: int := 40

  /** What a caller passes to `searchBooks`; `""` is an omitted field. */
  datatype SearchParams = SearchParams(
    title: string, author: string, genre: string,
    maxResults: Option<int>, startIndex: Option<int>)

  /** The query parameters sent to the catalogue (`orderBy` is always
      `relevance`). */
  datatype Request = Request(q: string, maxResults: int, startIndex: int)

  /** The body of a search response; both fields may be missing. */
  datatype SearchBody = SearchBody(items: Option<seq<Volume>>, totalItems: Option<int>)

  /** What normalisation returns. */
  datatype SearchResult = SearchResult(books: seq<Book>, totalItems: int)

  /** A thrown value: an HTTP-client error (with the response status if a
      response arrived, and its error code), another `Error`, or a value that
      is not an `Error`. */
  datatype Thrown =
    | ClientError(status: Option<int>, code: string, message: string)
    | OtherError(message: string)
    | NotAnError

  /** The outcome of a request. */
  datatype Outcome<+T> = Responded(body: T) | Threw(thrown: Thrown)

  /** One query part: nothing for an empty field, else the prefix and the
      encoded value. */
  function Part(prefix: string, value: string, encode: string -> string): seq<string> {
    if value == "" then [] else [prefix + encode(value)]
  }

  /** The query parts, in the order title, author, genre. */
  function QueryParts(p: SearchParams, encode: string -> string): seq<string> {
    Part("intitle:", p.title, encode) + Part("inauthor:", p.author, encode) + Part("subject:", p.genre, encode)
  }

  /** `queryParts`, built by pushing one part per non-empty field. */
  method BuildQueryParts(p: SearchParams, encode: string -> string) returns (parts: seq<string>)
    ensures parts == QueryParts(p, encode)
    ensures |parts| <= 3 && (parts == [] <==> p.title == "" && p.author == "" && p.genre == "")
  {
    parts := [];
    if p.title != "" {
      parts := parts + ["intitle:" + encode(p.title)];
    }
    if p.author != "" {
      parts := parts + ["inauthor:" + encode(p.author)];
    }
    if p.genre != "" {
      parts := parts + ["subject:" + encode(p.genre)];
    }
  }

  function Indicator(b: bool): nat {
    if b then 1 else 0
  }

  /** There is one part per non-empty field, and the parts appear in the order
      title, author, genre. */
  lemma QueryPartsShape(p: SearchParams, encode: string -> string)
    ensures var parts := QueryParts(p, encode);
      && |parts| == Indicator(p.title != "") + Indicator(p.author != "") + Indicator(p.genre != "")
      && (p.title != "" ==> parts[0] == "intitle:" + encode(p.title))
      && (p.author != "" ==> parts[Indicator(p.title != "")] == "inauthor:" + encode(p.author))
      && (p.genre != "" ==> parts[|parts| - 1] == "subject:" + encode(p.genre))
  {
  }

  /** The query string: the parts joined with `+`. */
  function Query(p: SearchParams, encode: string -> string): string {
    Text.Join(QueryParts(p, encode), "+")
  }

  /** When encoding never produces `+` (as `encodeURIComponent` does not), the
      query splits back into exactly its parts. */
  lemma QuerySplitsIntoParts(p: SearchParams, encode: string -> string)
    requires forall s :: '+' !in encode(s)
    requires QueryParts(p, encode) != []
    ensures Text.Split(Query(p, encode), '+') == QueryParts(p, encode)
  {
    var parts := QueryParts(p, encode);
    forall i | 0 <= i < |parts| ensures '+' !in parts[i] {
      var v := parts[i];
      if p.title != "" && v == "intitle:" + encode(p.title) {
        assert v[8..] == encode(p.title);
      } else if p.author != "" && v == "inauthor:" + encode(p.author) {
        assert v[9..] == encode(p.author);
      } else {
        assert v == "subject:" + encode(p.genre);
        assert v[8..] == encode(p.genre);
      }
    }
    Text.SplitJoin(parts, '+');
  }

  /** `Math.min(params.maxResults || 12, 40)`: a missing or zero value becomes
      12, and the result never exceeds 40. */
  function MaxResults(requested: Option<int>): (n: int)
    ensures n <= MaxMaxResults
    ensures requested.None? || requested.value == 0 ==> n == DefaultMaxResults
    ensures requested.Some? && requested.value != 0 ==> n == if requested.value < MaxMaxResults then requested.value else MaxMaxResults
  {
    var wanted := if requested.None? || requested.value == 0 then DefaultMaxResults else requested.value;
    if wanted < MaxMaxResults then wanted else MaxMaxResults
  }

  /** `params.startIndex || 0`. */
  function StartIndex(requested: Option<int>): (n: int)
    ensures requested.None? ==> n == 0
    ensures requested.Some? ==> n == requested.value
  {
    requested.GetOr(0)
  }

  /** The request a search sends. */
  function RequestFor(p: SearchParams, encode: string -> string): Request {
    Request(Query(p, encode), MaxResults(p.maxResults), StartIndex(p.startIndex))
  }

  /** `(data.items || []).map(transform)` and `data.totalItems || 0`. */
  function Normalize(body: SearchBody): (r: SearchResult)
    ensures |r.books| == |body.items.GetOr([])|
    ensures forall i :: 0 <= i < |r.books| ==> r.books[i] == Transform(body.items.value[i])
    ensures r.totalItems == body.totalItems.GetOr(0)
  {
    var items := body.items.GetOr([]);
    SearchResult(seq(|items|, i requires 0 <= i < |items| => Transform(items[i])), body.totalItems.GetOr(0))
  }

  /** A body without items gives no books, one without a total gives 0, and
      every book keeps the id of its volume. */
  lemma NormalizeDefaults(body: SearchBody)
    ensures body.items.None? ==> Normalize(body).books == []
    ensures body.totalItems.None? ==> Normalize(body).totalItems == 0
    ensures forall i :: 0 <= i < |Normalize(body).books| ==> Normalize(body).books[i].id == body.items.value[i].id
  {
  }

  /** The catch block of `searchBooks`: rate limiting, then a timeout, then a
      missing response get fixed messages; any other `Error` keeps its own
      message; a thrown non-`Error` gets the generic message. */
  function SearchErrorMessage(t: Thrown): string {
    match t
    case ClientError(status, code, message) =>
      if status == Some(429) then TooManyRequestsMessage
      else if code == "ECONNABORTED" then TimeoutMessage
      else if status.None? then NetworkMessage
      else message
    case OtherError(message) => message
    case NotAnError => UnexpectedSearchMessage
  }

  /** The order of the checks: a 429 response wins over a timeout code, a
      timeout over a missing response, and a client error with some other
      response is passed on unchanged. */
  lemma SearchErrorPrecedence(status: Option<int>, code: string, message: string)
    ensures status == Some(429) ==> SearchErrorMessage(ClientError(status, code, message)) == TooManyRequestsMessage
    ensures status != Some(429) && code == "ECONNABORTED" ==> SearchErrorMessage(ClientError(status, code, message)) == TimeoutMessage
    ensures status.None? && code != "ECONNABORTED" ==> SearchErrorMessage(ClientError(status, code, message)) == NetworkMessage
    ensures status.Some? && status != Some(429) && code != "ECONNABORTED" ==> SearchErrorMessage(ClientError(status, code, message)) == message
  {
  }

  /** `searchBooks`. */
  function SearchBooks(p: SearchParams, encode: string -> string,
                       fetch: Request -> Outcome<SearchBody>): Result<SearchResult, string>
  {
    if QueryParts(p, encode) == [] then Failure(SearchErrorMessage(OtherError(NoFieldMessage)))
    else match fetch(RequestFor(p, encode))
      case Responded(body) => Success(Normalize(body))
      case Threw(t) => Failure(SearchErrorMessage(t))
  }

  /** With every field empty the search fails with the fixed message whatever
      the catalogue would answer: no request is made. */
  lemma EmptySearchMakesNoRequest(p: SearchParams, encode: string -> string,
                                  fetch1: Request -> Outcome<SearchBody>, fetch2: Request -> Outcome<SearchBody>)
    requires p.title == "" && p.author == "" && p.genre == ""
    ensures SearchBooks(p, encode, fetch1) == SearchBooks(p, encode, fetch2) == Failure(NoFieldMessage)
  {
  }

  /** A search with some field depends only on the catalogue's answer to its own
      request, which asks for at most 40 results; a success is the normalised
      body. */
  lemma SearchUsesOneRequest(p: SearchParams, encode: string -> string, fetch: Request -> Outcome<SearchBody>)
    requires p.title != "" || p.author != "" || p.genre != ""
    ensures RequestFor(p, encode).maxResults <= MaxMaxResults
    ensures fetch(RequestFor(p, encode)).Responded? ==>
      SearchBooks(p, encode, fetch) == Success(Normalize(fetch(RequestFor(p, encode)).body))
    ensures fetch(RequestFor(p, encode)).Threw? ==>
      SearchBooks(p, encode, fetch) == Failure(SearchErrorMessage(fetch(RequestFor(p, encode)).thrown))
  {
  }

  /** The catch block of `getBookById`: not found, rate limiting, a timeout and
      a missing response get their messages; everything else the generic one. */
  function BookErrorMessage(t: Thrown): (m: string)
    ensures m in {NotFoundMessage, TooManyRequestsMessage, TimeoutMessage, NetworkMessage, FetchDetailsMessage}
    ensures !t.ClientError? ==> m == FetchDetailsMessage
  {
    match t
    case ClientError(status, code, _) =>
      if status == Some(404) then NotFoundMessage
      else if status == Some(429) then TooManyRequestsMessage
      else if code == "ECONNABORTED" then TimeoutMessage
      else if status.None? then NetworkMessage
      else FetchDetailsMessage
    case _ => FetchDetailsMessage
  }

  /** The order of the checks for a client error. */
  lemma BookErrorPrecedence(status: Option<int>, code: string, message: string)
    ensures status == Some(404) ==> BookErrorMessage(ClientError(status, code, message)) == NotFoundMessage
    ensures status == Some(429) ==> BookErrorMessage(ClientError(status, code, message)) == TooManyRequestsMessage
    ensures status !in {Some(404), Some(429)} && code == "ECONNABORTED" ==> BookErrorMessage(ClientError(status, code, message)) == TimeoutMessage
    ensures status.None? && code != "ECONNABORTED" ==> BookErrorMessage(ClientError(status, code, message)) == NetworkMessage
    ensures status.Some? && status !in {Some(404), Some(429)} && code != "ECONNABORTED" ==> BookErrorMessage(ClientError(status, code, message)) == FetchDetailsMessage
  {
  }

  /** `getBookById`: the transformed volume, or a fixed message. */
  function GetBookById(id: string, fetch: string -> Outcome<Volume>): (r: Result<Book, string>)
    ensures r.Success? <==> fetch(id).Responded?
    ensures r.Success? ==> r.value == Transform(fetch(id).body)
    ensures r.Failure? ==> r.error in {NotFoundMessage, TooManyRequestsMessage, TimeoutMessage, NetworkMessage, FetchDetailsMessage}
  {
    match fetch(id)
    case Responded(v) => Success(Transform(v))
    case Threw(t) => Failure(BookErrorMessage(t))
  }
}
