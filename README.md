# BookExplorer favourites core, in Dafny

BookExplorer is a browser application for searching a public book catalogue by
title, author and genre and keeping a personal list of favourite books with
notes and tags. This project models the logic of that application and proves
properties of the model:

- **Favourites repository** (`favorites_store.dfy`): the in-memory list of
  favourite entries, unique by id, and its local-storage copy under the key
  `book-explorer-favorites`. Add, remove, toggle, update-notes and update-tags
  are written as the pure updaters the source hands to `save`. The class
  `FavoritesRepository` applies them, writes the whole list, and swallows a
  failed write. The mount-time load adopts a stored array, and it drops
  placeholder, blank, corrupt or non-array text.
- **Favourites page** (`favorites_query.dfy`): the case-insensitive search over
  title, authors and notes; the tag filter; the stable sort by date, title or
  first author in either direction; the sorted tag cloud and per-tag counts; and
  the four pieces of filter state with their handlers.
- **Book details page** (`book_details.dfy`): the notes policy (at most 5,
  trimmed, blank input ignored, removal by value) and the tags policy (trimmed,
  lower-cased, duplicates refused). Each handler is gated on the book being a
  favourite and keeps the page's local copies equal to the stored entry.
- **Pagination bar** (`pagination.dfy`): the page count, the guarded page
  change, the Prev/Next buttons and the sliding window of at most five page
  numbers.
- **Catalogue client** (`books_api.dfy`, `books.dfy`): the `intitle:` /
  `inauthor:` / `subject:` query, the page-size clamp, normalisation of a
  response, the volume-to-book transform, and the classification of failures.
- **Book card** (`book_card.dfy`): truncation, description cleaning, the cover
  URL, the author line, the category badges and the heart button.
- **Search form** (`search_form.dfy`) and **search page**
  (`search_page.dfy`): field editing and validation, then the page's
  reset/search/failure transitions, the 150-result cap, page offsets and the
  summary line.

`text.dfy`, `seqs.dfy` and `wrappers.dfy` hold the string, sequence and option
helpers these share. They cover white space as `\s` sees it, `trim`, ASCII
`toLowerCase`, `includes`, `join`, `split` and `replace`, plus `filter` and a
stable insertion sort.

Modelling choices:

- Timestamps (`dateAdded`, `new Date().toISOString()`) are integers passed in as
  `now`.
- `localeCompare` is a parameter `locale` that is assumed to be a total
  preorder (`Seqs.Consistent`).
- Local storage is a `map<string, string>`. `JSON.stringify` / `JSON.parse`
  are the repository's `encode` / `decode` function values. The round trip is
  the predicate `FaithfulCodec`, which only the lemmas that need it require.
- Whether a storage write throws is the parameter `writeOk`.
- The HTTP request is a function `fetch` from the request to its outcome.
  `encodeURIComponent` is a parameter `encode`.
- Notes are stored as `seq<string>`. The source's default `""` for a book added
  without notes is modelled as the empty sequence. The notes part of the
  favourites search is a parameter `notesMatch`, and `NotesMatch` (some note
  contains the query) is the intended instance; see Findings.
- A favourite entry is `Entry(book, dateAdded, notes, tags)`, where the book
  holds the thirteen catalogue fields plus the id. The title is a required
  string.

## Model

| member | source | states |
|---|---|---|
| FavoritesStore.AddUpdate | src/contexts/FavoritesContext.jsx:57-65 | adding a present id returns the list unchanged; adding a new id appends exactly the new entry (book, date, notes, tags) after the unchanged old list; afterwards the id is a favourite |
| FavoritesStore.AddKeepsUnique | src/contexts/FavoritesContext.jsx:59-63 | adding keeps ids unique |
| FavoritesStore.AddIdempotent | src/contexts/FavoritesContext.jsx:59 | a second add of the same book, at any time and with any notes/tags, leaves the list of the first add (first date, notes and tags kept) |
| FavoritesStore.RemoveSpec | src/contexts/FavoritesContext.jsx:67-69 | after removal the id is not a favourite; an entry survives exactly when it was present with a different id; every other id keeps its favourite status |
| FavoritesStore.RemoveAbsent | src/contexts/FavoritesContext.jsx:68 | removing an absent id changes nothing |
| FavoritesStore.RemoveKeepsUnique | src/contexts/FavoritesContext.jsx:68 | removing keeps ids unique |
| FavoritesStore.ToggleUpdate | src/contexts/FavoritesContext.jsx:71-81 | after a toggle the book is a favourite exactly when it was not one before |
| FavoritesStore.ToggleIsRemoveOrAdd | src/contexts/FavoritesContext.jsx:73-80 | toggle is remove when the id is present and add when it is absent |
| FavoritesStore.ToggleKeepsUnique | src/contexts/FavoritesContext.jsx:73-80 | toggling keeps ids unique |
| FavoritesStore.ToggleTwiceAbsent | src/contexts/FavoritesContext.jsx:71-81 | toggling an absent book twice restores the original list |
| FavoritesStore.ToggleTwicePresent | src/contexts/FavoritesContext.jsx:71-81 | toggling a present book twice moves it to the end with the second call's date, notes and tags: not an involution |
| FavoritesStore.SetNotesSpec | src/contexts/FavoritesContext.jsx:83-85 | the notes update keeps length and order; book, date and tags stay; only entries with that id get the new notes |
| FavoritesStore.SetTagsSpec | src/contexts/FavoritesContext.jsx:87-89 | the tags update keeps length and order; book, date and notes stay; only entries with that id get the new tags |
| FavoritesStore.UpdateUnknownId | src/contexts/FavoritesContext.jsx:83-89 | both updates are no-ops for an id that is not present |
| FavoritesStore.UpdatesKeepIds | src/contexts/FavoritesContext.jsx:84-88 | both updates keep ids unique and change no one's favourite status |
| FavoritesStore.Find | src/pages/BookDetails.jsx:102 | `favorites.find` returns an entry exactly when the id is a favourite, and that entry is in the list with that id |
| FavoritesStore.FindSetNotes | src/contexts/FavoritesContext.jsx:84 | after a notes update the entry found for the id is the old one with the new notes |
| FavoritesStore.FindSetTags | src/contexts/FavoritesContext.jsx:88 | after a tags update the entry found for the id is the old one with the new tags |
| FavoritesStore.FindAppended | src/contexts/FavoritesContext.jsx:60-63 | the entry appended for a new id is the one found for it |
| FavoritesStore.Recover | src/contexts/FavoritesContext.jsx:25-42 | a stored array is adopted exactly when the text is not absent, empty, `undefined`, `null` or blank and decodes to an array; the key is removed exactly when the text is non-empty and nothing is adopted |
| FavoritesStore.LoadAfterSave | src/contexts/FavoritesContext.jsx:27-34 | with a round-tripping codec, loading what save wrote adopts exactly the saved list and keeps the key |
| FavoritesStore.CorruptDataRecovery | src/contexts/FavoritesContext.jsx:27-42 | `undefined`, `null`, blank, unparsable or non-array text is never adopted, and any non-empty such text is removed |
| FavoritesStore.FavoritesRepository.constructor | src/contexts/FavoritesContext.jsx:21 | the provider starts with an empty list over the given storage |
| FavoritesStore.FavoritesRepository.Load | src/contexts/FavoritesContext.jsx:23-43 | the list becomes the adopted array or stays as it was; the key is removed exactly when the load decision says so; nothing else in storage changes |
| FavoritesStore.FavoritesRepository.Save | src/contexts/FavoritesContext.jsx:45-55 | the list becomes the updater's result whether or not the write succeeds; a successful write stores the encoding of that list under `book-explorer-favorites`, a failed one leaves storage untouched |
| FavoritesStore.FavoritesRepository.AddToFavorites | src/contexts/FavoritesContext.jsx:57-65 | the list becomes the add update of the old list, storage holds its encoding on success, and unique ids stay unique |
| FavoritesStore.FavoritesRepository.RemoveFromFavorites | src/contexts/FavoritesContext.jsx:67-69 | the list becomes the remove update, the id is no longer a favourite, unique ids stay unique |
| FavoritesStore.FavoritesRepository.ToggleFavorite | src/contexts/FavoritesContext.jsx:71-81 | the list becomes the toggle update and unique ids stay unique |
| FavoritesStore.FavoritesRepository.UpdateFavoriteNotes | src/contexts/FavoritesContext.jsx:83-85 | the list becomes the notes update and unique ids stay unique |
| FavoritesStore.FavoritesRepository.UpdateFavoriteTags | src/contexts/FavoritesContext.jsx:87-89 | the list becomes the tags update and unique ids stay unique |
| FavoritesStore.LoadThenSaveKeepsStorage | src/contexts/FavoritesContext.jsx:23-55 | when the favourites key holds the encoding of a list, whatever other keys storage holds, loading and then saving unchanged adopts that list and leaves storage as it was |
| FavoritesQuery.OrderConsistent | src/pages/Favorites.jsx:56-77 | every sort key, in both orders, gives a total-preorder comparator when `localeCompare` is one |
| FavoritesQuery.QueryIsFilter | src/pages/Favorites.jsx:37-55 | the result is a rearrangement of the favourites passing both filters; an entry is in it exactly when it is a favourite passing the search and the tag filter |
| FavoritesQuery.QuerySorted | src/pages/Favorites.jsx:56-77 | the result is ordered by the chosen key, negated for `desc` |
| FavoritesQuery.QueryStable | src/pages/Favorites.jsx:56-77 | entries with equal keys keep their order in the favourites list |
| FavoritesQuery.QueryNewestFirst | src/pages/Favorites.jsx:30-31 | with the default sort the list is shown newest first |
| FavoritesQuery.NoFilterKeepsAll | src/pages/Favorites.jsx:40 | an empty search with tag `all` or no tag keeps every favourite |
| FavoritesQuery.SearchIgnoresCase | src/pages/Favorites.jsx:39-47 | the search gives the same answer for a query and its lower-cased form |
| FavoritesQuery.TagFilterExact | src/pages/Favorites.jsx:49-52 | with a selected tag, exactly the favourites whose tags contain it pass |
| FavoritesQuery.AllTagOccurrencesMember | src/pages/Favorites.jsx:34 | a tag occurs in the flattened tag list exactly when some favourite carries it |
| FavoritesQuery.Distinct | src/pages/Favorites.jsx:33-34 | `Array.from(new Set(..))` keeps exactly the values not yet seen, each once |
| FavoritesQuery.AllTagsStrictlySorted | src/pages/Favorites.jsx:33-35 | `allTags` is strictly increasing in code-point order, so sorted and duplicate-free |
| FavoritesQuery.AllTagsMembers | src/pages/Favorites.jsx:33-35 | `allTags` holds exactly the tags some favourite carries |
| FavoritesQuery.TagCountBounds | src/pages/Favorites.jsx:343-345 | every listed tag has a count between 1 and the number of favourites |
| FavoritesQuery.TagCountIsShown | src/pages/Favorites.jsx:343-351 | selecting a tag with an empty search shows exactly as many books as its count |
| FavoritesQuery.TagNamedAllShowsEverything | src/pages/Favorites.jsx:51 | a user tag spelled `all` cannot be filtered on: selecting it shows every favourite |
| FavoritesQuery.InactiveFiltersShowAll | src/pages/Favorites.jsx:86-90 | when no filter is active every favourite is shown, newest first |
| FavoritesQuery.SearchMatchesAsWritten | src/pages/Favorites.jsx:39-47 | the search as written throws only on array-valued notes and never on string notes |
| FavoritesQuery.NotesSearchThrows | src/pages/Favorites.jsx:46-47 | a favourite with notes `["chess"]` searched for `chess` makes the written filter throw, while the intended search finds it |
| FavoritesQuery.NoteFound | src/pages/Favorites.jsx:46-47 | with the intended notes test, a favourite with a note containing the query always matches |
| FavoritesQuery.FavoritesView.constructor | src/pages/Favorites.jsx:28-31 | the filter state starts at `""`, `all`, `dateAdded`, `desc` |
| FavoritesQuery.FavoritesView.ClearFilters | src/pages/Favorites.jsx:79-84 | the four values return to their defaults and no filter is active |
| FavoritesQuery.FavoritesView.SetSearchQuery | src/pages/Favorites.jsx:145-150 | only the search text changes |
| FavoritesQuery.FavoritesView.SetSelectedTag | src/pages/Favorites.jsx:159 | only the selected tag changes |
| FavoritesQuery.FavoritesView.SetSortBy | src/pages/Favorites.jsx:186 | only the sort key changes |
| FavoritesQuery.FavoritesView.ToggleSortOrder | src/pages/Favorites.jsx:219 | `asc` becomes `desc` and anything else `asc`; nothing else changes |
| FavoritesQuery.FavoritesView.ClickTag | src/pages/Favorites.jsx:350-352 | a badge selects its tag, or deselects it back to `all` |
| FavoritesQuery.ClickTagTwice | src/pages/Favorites.jsx:350-352 | clicking a badge twice from the unfiltered view returns to it |
| BookDetails.AddNotePolicy | src/pages/BookDetails.jsx:133-147 | whitespace-only input is ignored; with 5 notes the add is refused; otherwise the trimmed text is appended, so the list never exceeds 5 |
| BookDetails.AddedNoteIsTrimmed | src/pages/BookDetails.jsx:145 | an added note is non-empty, has no surrounding white space and trims to itself |
| BookDetails.RemoveValueSpec | src/pages/BookDetails.jsx:157 | removal drops every copy of the value and keeps every other value as often as before |
| BookDetails.NormalizeTagIdempotent | src/pages/BookDetails.jsx:164 | a normalised tag normalises to itself |
| BookDetails.AddTagPolicy | src/pages/BookDetails.jsx:162-175 | blank input is ignored; a tag whose normal form is present is refused as a duplicate; otherwise the normal form is appended |
| BookDetails.AddTagKeepsDistinct | src/pages/BookDetails.jsx:165-173 | a duplicate-free tag list stays duplicate-free |
| BookDetails.DetailsPage.constructor | src/pages/BookDetails.jsx:59-107 | the page starts with its local notes and tags synchronised with the stored entry and empty input boxes |
| BookDetails.DetailsPage.HandleFavoriteToggle | src/pages/BookDetails.jsx:109-131 | a favourite is removed and the local notes and tags cleared; another book is added with the local notes and tags; synchronisation is kept; a successful write stores the encoding of the new list under the storage key, a failed one leaves storage as it was; without a loaded book nothing changes |
| BookDetails.DetailsPage.HandleAddNote | src/pages/BookDetails.jsx:133-154 | for a non-favourite nothing happens; otherwise the note policy decides, and an accepted note is stored for the book, becomes the local notes and empties the box; a successful write stores the encoding of the new list under the storage key, a failed one leaves storage as it was; an ignored or refused note leaves the store and storage untouched |
| BookDetails.DetailsPage.HandleRemoveNote | src/pages/BookDetails.jsx:156-160 | the notes lose every copy of the note, locally and in the store; a successful write stores the encoding of the new list under the storage key, a failed one leaves storage as it was |
| BookDetails.DetailsPage.HandleAddTag | src/pages/BookDetails.jsx:162-178 | for a non-favourite nothing happens; otherwise the tag policy decides, and an accepted tag is stored for the book, becomes the local tags and empties the box; a successful write stores the encoding of the new list under the storage key, a failed one leaves storage as it was; an ignored or duplicate tag leaves the store and storage untouched |
| BookDetails.DetailsPage.HandleRemoveTag | src/pages/BookDetails.jsx:180-185 | for a favourite the tags lose every copy of the tag, locally and in the store; a successful write stores the encoding of the new list under the storage key, a failed one leaves storage as it was; otherwise nothing happens |
| Pagination.TotalPages | src/components/Pagination.jsx:8 | the page count is the least number of pages of `pageSize` items holding all items |
| Pagination.RenderedHasTwoPages | src/components/Pagination.jsx:6-8 | whenever the bar is rendered there are at least two pages |
| Pagination.PageChange | src/components/Pagination.jsx:10-14 | a page is reported exactly when it is within 1..totalPages and differs from the current page |
| Pagination.ButtonsMatchGuard | src/components/Pagination.jsx:39-40 | on a valid page Prev is disabled exactly on page 1 and Next exactly on the last page, which are the clicks the guard would ignore |
| Pagination.GetPageNumbers | src/components/Pagination.jsx:16-33 | the loop produces the integers from the window's start to its end, all within 1..totalPages |
| Pagination.WindowInBounds | src/components/Pagination.jsx:20-30 | for any current page the numbers are consecutive and within 1..totalPages |
| Pagination.WindowShape | src/components/Pagination.jsx:18-26 | on a valid page the window has min(5, totalPages) numbers, contains the current page, starts at max(1, page-2) unless that runs past the end, and then ends at totalPages |
| Pagination.WindowClicks | src/components/Pagination.jsx:52-55 | clicking a window number reports it, except the current page |
| Books.Transform | src/Api/booksApi.js:6-23 | the book keeps the volume's id |
| Books.TransformRoundTrip | src/Api/booksApi.js:6-23 | every copied field reaches the book unchanged |
| Books.TransformIgnoresOtherFields | src/Api/booksApi.js:6-23 | volume fields outside the thirteen have no effect |
| BooksApi.BuildQueryParts | src/Api/booksApi.js:28-40 | the pushes produce one part per non-empty field in title, author, genre order; none exactly when all are empty |
| BooksApi.QueryPartsShape | src/Api/booksApi.js:28-40 | the number of parts equals the number of non-empty fields, each with its prefix and encoded value in fixed order |
| BooksApi.QuerySplitsIntoParts | src/Api/booksApi.js:46 | when encoding never yields `+`, splitting the query at `+` gives the parts back |
| BooksApi.MaxResults | src/Api/booksApi.js:47 | a missing or zero size becomes 12; the size never exceeds 40 |
| BooksApi.StartIndex | src/Api/booksApi.js:48 | a missing start index becomes 0 |
| BooksApi.Normalize | src/Api/booksApi.js:60-65 | one book per item, each the transform of its volume; the total defaults to 0 |
| BooksApi.NormalizeDefaults | src/Api/booksApi.js:60-65 | missing items give no books and a missing total gives 0 |
| BooksApi.SearchErrorPrecedence | src/Api/booksApi.js:66-84 | 429 first, then the timeout code, then no response; another client error is rethrown as is |
| BooksApi.EmptySearchMakesNoRequest | src/Api/booksApi.js:42-44 | with every field empty the search fails with the fixed message whatever the catalogue would answer |
| BooksApi.SearchUsesOneRequest | src/Api/booksApi.js:46-65 | a search with a field asks for at most 40 results and returns the normalised answer or the classified error |
| BooksApi.BookErrorMessage | src/Api/booksApi.js:94-111 | a failed fetch yields one of the five fixed messages, and a non-client error always the generic one |
| BooksApi.BookErrorPrecedence | src/Api/booksApi.js:95-110 | 404, then 429, then timeout, then no response; any other response is the generic message |
| BooksApi.GetBookById | src/Api/booksApi.js:87-112 | success exactly when the request answers, with the transformed volume; otherwise a fixed message |
| BookCard.TruncateText | src/components/BookCard.jsx:36-39 | a text within the limit is kept; a longer one is at most limit+3 long |
| BookCard.TruncateTextSpec | src/components/BookCard.jsx:37-38 | a text over the limit becomes its first `limit` characters without the white space around them, followed by `...` |
| BookCard.StripTags | src/components/BookCard.jsx:44 | removing `<...>` spans leaves no `<` followed later by `>` and never lengthens the text |
| BookCard.StripTagsPlainText | src/components/BookCard.jsx:44 | text without `<` is unchanged |
| BookCard.CollapseNoDoubleSpace | src/components/BookCard.jsx:45 | after collapsing, no two white-space characters are adjacent |
| BookCard.CollapseKeepsNoTag | src/components/BookCard.jsx:44-45 | collapsing white space keeps a text tag-free |
| BookCard.CleanDescriptionSpec | src/components/BookCard.jsx:41-48 | a missing or empty description gives the placeholder; otherwise the result has no tag, no double white space, no leading white space and at most 153 characters |
| BookCard.UpgradeToHttps | src/components/BookCard.jsx:28 | a link starting `http://` becomes `https://` plus the rest; a link without `http://` is unchanged |
| BookCard.ImageUrlChoice | src/components/BookCard.jsx:26-34 | the placeholder is used exactly when neither link is present and non-empty; a non-empty thumbnail is used, with its first `http://` made `https://`; otherwise a non-empty small thumbnail is used the same way |
| BookCard.AuthorLineCases | src/components/BookCard.jsx:94-106 | no authors give `Unknown Author`; one or two are listed joined by `, `; more add ` et al.` after the first two |
| BookCard.CategoryBadgesSpec | src/components/BookCard.jsx:144-170 | with n > 0 categories there are min(n, 2) badges naming the first categories in order, then a `+(n-2)` badge exactly when n > 2, and no `Uncategorized`; with none, `Uncategorized` alone |
| BookCard.ToggleFromCard | src/components/BookCard.jsx:15-24 | the heart removes a favourite and otherwise adds the book with empty notes and tags; favourite status flips; a successful write stores the encoding of the new list under the storage key, a failed one leaves storage as it was |
| SearchForm.FormData.With | src/components/SearchForm.jsx:19-22 | setting a field changes that field only |
| SearchForm.HasAnyValueIffNotBlank | src/components/SearchForm.jsx:51-53 | the form has a value exactly when some field is not blank |
| SearchForm.TypingGivesValue | src/components/SearchForm.jsx:73-75 | the empty form has no value; typing a non-blank value into any field gives one |
| SearchForm.SearchFormState.constructor | src/components/SearchForm.jsx:10-16 | the form starts empty with no errors |
| SearchForm.SearchFormState.HandleInputChange | src/components/SearchForm.jsx:18-30 | only the edited field changes; its error is cleared to `""` when it was set |
| SearchForm.SearchFormState.ClearField | src/components/SearchForm.jsx:32-37 | only that field is emptied; errors stay |
| SearchForm.SearchFormState.ClearAllFields | src/components/SearchForm.jsx:39-46 | every field is emptied and every error removed |
| SearchForm.SearchFormState.ValidateForm | src/components/SearchForm.jsx:48-63 | valid exactly when some field is not blank; an invalid form has only the general error, a valid one none |
| SearchForm.SearchFormState.HandleSubmit | src/components/SearchForm.jsx:65-71 | the untrimmed form is submitted exactly when validation passes |
| SearchForm.SubmitWhenEnabled | src/components/SearchForm.jsx:194 | pressing an enabled submit button always submits the form as typed and clears the errors |
| SearchPage.SafeTotal | src/pages/Search.jsx:76 | the kept total is the API total capped at 150 |
| SearchPage.RequestOfPage | src/pages/Search.jsx:67-73 | page p asks for 12 results from (p-1)*12, with every field trimmed |
| SearchPage.PagesDoNotOverlap | src/pages/Search.jsx:72 | consecutive pages follow each other and different pages do not overlap |
| SearchPage.OfferedPagesStartInside | src/pages/Search.jsx:76-77 | every page the bar offers starts inside the kept total, so before position 150 |
| SearchPage.SubmittedFormQueries | src/pages/Search.jsx:67-73 | a validated form always leads to a request and its result |
| SearchPage.SummaryPartsShape | src/pages/Search.jsx:123-126 | the summary lists exactly the non-empty fields, in title, author, genre order |
| SearchPage.SummaryOfTitleOnly | src/pages/Search.jsx:120-129 | a title-only search reads `Showing results for title: "<title>"` |
| SearchPage.SummaryOfSubmitted | src/pages/Search.jsx:120-129 | the summary of a submitted form names at least one field |
| SearchPage.SearchPageState.constructor | src/pages/Search.jsx:24-26 | the page starts not loading, without error, on page 1, over the shared search state |
| SearchPage.SearchPageState.ArrivalEffect | src/pages/Search.jsx:33-58 | `?reset=true` leaves `{}`, no books, total 0 and not searched; a missing or empty search clears books, total and searched; otherwise nothing changes |
| SearchPage.SearchPageState.ShowOutcome | src/pages/Search.jsx:75-111 | success shows the books, caps the total and moves to the page; failure sets the error, empties the books and zeroes the total; loading ends either way |
| SearchPage.SearchPageState.HandleSearch | src/pages/Search.jsx:60-112 | the form is stored and marked searched, and the result of the page's request is shown, with loading false afterwards |
| SearchPage.SearchPageState.HandleRetry | src/pages/Search.jsx:114-118 | with a stored form, retry ends as a search of page 1: on success the books, the capped total and page 1 are shown with no error, on failure the error with no books and total 0 on the old page; without a stored search nothing changes; the `{}` left by a reset fails with a TypeError message |
| SearchPage.SearchPageState.ClickPage | src/pages/Search.jsx:187-195 | a page the bar accepts becomes current and is fetched; any other click changes nothing |
| SearchPage.SearchThenNextPage | src/pages/Search.jsx:187-195 | a search, then a click on page 2 when the bar is shown: a failed search shows its error; a single page of results stays on page 1; otherwise the page ends on page 2 showing the second request's books or error, that request starting 12 results after the first |
| Text.TrimEmptyIffBlank | src/contexts/FavoritesContext.jsx:27 | a text trims to nothing exactly when it is all white space |
| Text.TrimSpec | src/components/BookCard.jsx:46 | the trimmed text is the infix between the leading and trailing white space |
| Text.IndexOf | src/components/BookCard.jsx:28 | the first occurrence of the pattern, or none exactly when the pattern does not occur |
| Seqs.SortSorted | src/pages/Favorites.jsx:56 | the sort produces a sequence ordered by a consistent comparator |
| Seqs.SortStable | src/pages/Favorites.jsx:56 | the sort keeps the input order of elements that compare equal |
| Seqs.FilterMember | src/pages/Favorites.jsx:38 | an element survives `filter` exactly when it is in the input and passes the predicate |

## Left out

- React rendering, routing, toasts, `console` logging and `window.location.reload` are not modelled. Neither is React's asynchronous batching of `setState`: each handler's updates are applied at once, in order.
- `src/contexts/SearchContext.jsx` is not part of this model. The search page takes the shared search, books and total it holds as constructor parameters.
- The HTTP request (`axios.get`, the ten-second timeout, the catalogue URL and `orderBy`) is left out; its outcome is the parameter `fetch`. `encodeURIComponent` is the parameter `encode`.
- `JSON.stringify` and `JSON.parse` are parameters of the repository, and their round trip is an assumption (`FaithfulCodec`). An encoding failure is the same as a failed write (`writeOk` false).
- Load: array elements are not validated, so a stored array with repeated ids is adopted as it is. Uniqueness lemmas hold for any list that starts unique.
- Cross-tab storage races and the `storage` event are not modelled.
- `localeCompare` is an uninterpreted comparator assumed to be a total preorder. `new Date(..).getTime()` is an integer timestamp. `toLocaleString`, `getFullYear` and `toFixed` (display only) are left out.
- `toLowerCase` is modelled on ASCII letters only. The default `Array.prototype.sort` on tags is modelled as code-point order on characters, not on UTF-16 units.
- JavaScript's `length` and `slice` count UTF-16 code units, while the model's strings are sequences of characters (code points). `truncateText` therefore cuts a text with characters outside the Basic Multilingual Plane (emoji, for example) at a different place than the browser, where `slice` can split a surrogate pair. The 153 bound of `CleanDescriptionSpec` holds in characters, not in JavaScript `length`.
- `volumeInfo` is a required field of a volume in the model. A catalogue volume without it makes `transform` throw a TypeError: `searchBooks` passes that error's own message on, and `getBookById` reports "Failed to fetch book details". Neither path is modelled.
- The regular expressions of `cleanDescription` are modelled directly as `StripTags` and `CollapseSpaces`.
- The runtime TypeError for a missing title in the favourites search (src/pages/Favorites.jsx:41) is not modelled: the title is a required string.
- BookDetails.DetailsPage.HandleRemoveNote: requires a loaded favourite. The delete button is only drawn for a favourite with notes (src/pages/BookDetails.jsx:433, :445). For any other book the local notes are the string `""`, so `notes.filter` (:157) would throw before anything is saved.
- BookDetails.DetailsPage.constructor: the two synchronising effects (src/pages/BookDetails.jsx:59-107) are summarised as the invariant `Synced`, which every handler keeps. The page fetch itself is `BooksApi.GetBookById`.
- Pagination.TotalPages: requires a positive page size. The only caller passes 12, and a zero size would give JavaScript's `Infinity`.
- SearchPage.SearchPageState.ClickPage: requires a stored form search. The bar is only drawn with results, which the `{}` left by a reset never has.
- SearchPage.SearchPageState.HandleSearch: the `showToast` flag only affects toasts and is left out. A value thrown that is not an `Error` ("Failed to search books") cannot arise, since the catalogue client always throws an `Error`.

## Findings

| source | as written | input that shows it | evidently intended | confidence | as-written member | corrected member |
|---|---|---|---|---|---|---|
| src/pages/Favorites.jsx:46-47 | `book.notes.toLowerCase()` assumes notes is a string, but the details page stores an array of strings once a note is added (src/pages/BookDetails.jsx:145-147), and arrays have no `toLowerCase` | a favourite titled "Dune" with notes `["chess"]`, searched for `chess`: the filter throws a TypeError instead of listing the book | the search also matches when some note contains the query, ignoring case | high, not executed | FavoritesQuery.NotesSearchThrows | FavoritesQuery.NoteFound |
