/**
 * The favourites page of src/pages/Favorites.jsx: the derived list shown to the
 * user (search filter, tag filter, sort), the tag cloud with its counts, and the
 * four pieces of filter state with their handlers.
 *
 * `localeCompare` is the parameter `locale`; the notes part of the search is the
 * parameter `notesMatch`, with `NotesMatch` as its intended instance.
 */
module FavoritesQuery {

  import opened Wrappers
  import opened Books
  import Text
  import Seqs

  /** The default values of the four pieces of filter state. */
  const DefaultSearch: string := ""
  const AllTagsValue: string := "all"
  const DefaultSortBy: string := "dateAdded"
  const DefaultSortOrder: string := "desc"

  /** `s.toLowerCase().includes(q.toLowerCase())`. */
  predicate ContainsIgnoringCase(s: string, q: string) {
    Text.Includes(Text.Lower(s), Text.Lower(q))
  }

  /** Some author contains the query, ignoring case. */
  predicate AuthorMatches(authors: Option<seq<string>>, q: string) {
    authors.Some? && exists i :: 0 <= i < |authors.value| && ContainsIgnoringCase(authors.value[i], q)
  }

  /** The intended notes test: some note contains the query, ignoring case. */
  predicate NotesMatch(notes: seq<string>, q: string) {
    exists i :: 0 <= i < |notes| && ContainsIgnoringCase(notes[i], q)
  }

  /** The search filter: an empty query keeps everything; otherwise the title,
      an author or the notes must contain the query, ignoring case. */
  predicate SearchMatches(e: Entry, q: string, notesMatch: (seq<string>, string) -> bool) {
    || q == ""
    || ContainsIgnoringCase(e.book.title, q)
    || AuthorMatches(e.book.authors, q)
    || notesMatch(e.notes, q)
  }

  /** The tag filter: no tag or `"all"` keeps everything; otherwise the entry's
      tags must contain the selected tag. */
  predicate TagMatches(e: Entry, tag: string) {
    tag == "" || tag == AllTagsValue || tag in e.tags
  }

  /** The predicate passed to `filter`. */
  function Keep(q: string, tag: string, notesMatch: (seq<string>, string) -> bool): Entry -> bool {
    e => SearchMatches(e, q, notesMatch) && TagMatches(e, tag)
  }

  /** The sort key for an author sort: `a.authors?.[0] || ""`. */
  function FirstAuthor(e: Entry): string {
    if e.book.authors.Some? && |e.book.authors.value| > 0 then e.book.authors.value[0] else ""
  }

  /** The comparison before the sort order is applied; an unknown key compares
      everything as equal. */
  function KeyCompare(a: Entry, b: Entry, sortBy: string, locale: (string, string) -> int): int {
    if sortBy == "dateAdded" then a.dateAdded - b.dateAdded
    else if sortBy == "title" then locale(a.book.title, b.book.title)
    else if sortBy == "author" then locale(FirstAuthor(a), FirstAuthor(b))
    else 0
  }

  /** The comparator passed to `sort`: `"desc"` negates the key comparison. */
  function Order(sortBy: string, sortOrder: string, locale: (string, string) -> int): (Entry, Entry) -> int {
    (a, b) => if sortOrder == "desc" then -KeyCompare(a, b, sortBy, locale) else KeyCompare(a, b, sortBy, locale)
  }

  /** `filteredAndSortedFavorites`. */
  function Query(favs: seq<Entry>, q: string, tag: string, sortBy: string, sortOrder: string,
                 locale: (string, string) -> int, notesMatch: (seq<string>, string) -> bool): seq<Entry>
  {
    Seqs.Sort(Seqs.Filter(favs, Keep(q, tag, notesMatch)), Order(sortBy, sortOrder, locale))
  }

  /** Every sort key gives a consistent comparator when `localeCompare` is one,
      in both orders. */
  lemma OrderConsistent(sortBy: string, sortOrder: string, locale: (string, string) -> int)
    requires Seqs.Consistent(locale)
    ensures Seqs.Consistent(Order(sortBy, sortOrder, locale))
  {
    var key := (a: Entry, b: Entry) => KeyCompare(a, b, sortBy, locale);
    forall a: Entry, b: Entry, c: Entry | key(a, b) <= 0 && key(b, c) <= 0 ensures key(a, c) <= 0 {
      if sortBy == "title" {
        assert locale(a.book.title, b.book.title) <= 0 && locale(b.book.title, c.book.title) <= 0;
      } else if sortBy == "author" {
        assert locale(FirstAuthor(a), FirstAuthor(b)) <= 0 && locale(FirstAuthor(b), FirstAuthor(c)) <= 0;
      }
    }
    forall a: Entry, b: Entry ensures key(a, b) <= 0 <==> key(b, a) >= 0 {
      if sortBy == "title" {
        assert locale(a.book.title, b.book.title) <= 0 <==> locale(b.book.title, a.book.title) >= 0;
      } else if sortBy == "author" {
        assert locale(FirstAuthor(a), FirstAuthor(b)) <= 0 <==> locale(FirstAuthor(b), FirstAuthor(a)) >= 0;
      }
    }
    assert Seqs.Consistent(key);
    if sortOrder == "desc" {
      Seqs.NegatedConsistent(key);
      assert Seqs.Consistent((a, b) => -key(a, b));
    }
    assert forall a, b ::
      Order(sortBy, sortOrder, locale)(a, b) == (if sortOrder == "desc" then -key(a, b) else key(a, b));
  }

  /** The result holds exactly the favourites that pass both filters, each as
      often as in the list: nothing is added or dropped. */
  lemma {:induction false} QueryIsFilter(favs: seq<Entry>, q: string, tag: string, sortBy: string, sortOrder: string,
                                         locale: (string, string) -> int, notesMatch: (seq<string>, string) -> bool)
    ensures multiset(Query(favs, q, tag, sortBy, sortOrder, locale, notesMatch))
         == multiset(Seqs.Filter(favs, Keep(q, tag, notesMatch)))
    ensures forall e ::
      e in Query(favs, q, tag, sortBy, sortOrder, locale, notesMatch) <==> e in favs && SearchMatches(e, q, notesMatch) && TagMatches(e, tag)
  {
    var keep := Keep(q, tag, notesMatch);
    var r := Query(favs, q, tag, sortBy, sortOrder, locale, notesMatch);
    forall e ensures e in r <==> e in favs && SearchMatches(e, q, notesMatch) && TagMatches(e, tag) {
      Seqs.FilterMember(favs, keep, e);
      assert e in r <==> e in multiset(r);
      assert e in Seqs.Filter(favs, keep) <==> e in multiset(Seqs.Filter(favs, keep));
    }
  }

  /** The result is in the chosen order. */
  lemma QuerySorted(favs: seq<Entry>, q: string, tag: string, sortBy: string, sortOrder: string,
                    locale: (string, string) -> int, notesMatch: (seq<string>, string) -> bool)
    requires Seqs.Consistent(locale)
    ensures Seqs.Sorted(Query(favs, q, tag, sortBy, sortOrder, locale, notesMatch), Order(sortBy, sortOrder, locale))
  {
    OrderConsistent(sortBy, sortOrder, locale);
    Seqs.SortSorted(Seqs.Filter(favs, Keep(q, tag, notesMatch)), Order(sortBy, sortOrder, locale));
  }

  /** Entries with equal keys keep their order in the list (the sort is stable). */
  lemma QueryStable(favs: seq<Entry>, q: string, tag: string, sortBy: string, sortOrder: string,
                    locale: (string, string) -> int, notesMatch: (seq<string>, string) -> bool, e: Entry)
    requires Seqs.Consistent(locale)
    ensures Seqs.Ties(Query(favs, q, tag, sortBy, sortOrder, locale, notesMatch), e, Order(sortBy, sortOrder, locale))
         == Seqs.Ties(Seqs.Filter(favs, Keep(q, tag, notesMatch)), e, Order(sortBy, sortOrder, locale))
  {
    OrderConsistent(sortBy, sortOrder, locale);
    Seqs.SortStable(Seqs.Filter(favs, Keep(q, tag, notesMatch)), e, Order(sortBy, sortOrder, locale));
  }

  /** With the default state the list is shown newest first. */
  lemma QueryNewestFirst(favs: seq<Entry>, q: string, tag: string,
                         locale: (string, string) -> int, notesMatch: (seq<string>, string) -> bool)
    ensures var r := Query(favs, q, tag, DefaultSortBy, DefaultSortOrder, locale, notesMatch);
      forall i, j :: 0 <= i < j < |r| ==> r[i].dateAdded >= r[j].dateAdded
  {
    var cmp := Order(DefaultSortBy, DefaultSortOrder, locale);
    assert forall a, b :: cmp(a, b) == b.dateAdded - a.dateAdded;
    Seqs.SortSorted(Seqs.Filter(favs, Keep(q, tag, notesMatch)), cmp);
  }

  /** An empty search with no tag selected keeps every favourite. */
  lemma NoFilterKeepsAll(favs: seq<Entry>, tag: string, sortBy: string, sortOrder: string,
                         locale: (string, string) -> int, notesMatch: (seq<string>, string) -> bool)
    requires tag == "" || tag == AllTagsValue
    ensures multiset(Query(favs, "", tag, sortBy, sortOrder, locale, notesMatch)) == multiset(favs)
  {
    Seqs.FilterKeepsAll(favs, Keep("", tag, notesMatch));
  }

  /** An entry passes the search exactly when the query is empty or the title,
      some author or the notes contain it; case does not matter. */
  lemma SearchIgnoresCase(e: Entry, q: string)
    ensures SearchMatches(e, q, NotesMatch) == SearchMatches(e, Text.Lower(q), NotesMatch)
    ensures q == "" <==> Text.Lower(q) == ""
  {
    Text.LowerIdempotent(q);
  }

  /** The tag filter keeps exactly the entries holding the selected tag. */
  lemma TagFilterExact(favs: seq<Entry>, tag: string)
    requires tag != "" && tag != AllTagsValue
    ensures forall e :: e in Seqs.Filter(favs, Keep("", tag, NotesMatch)) <==> e in favs && tag in e.tags
  {
    forall e ensures e in Seqs.Filter(favs, Keep("", tag, NotesMatch)) <==> e in favs && tag in e.tags {
      Seqs.FilterMember(favs, Keep("", tag, NotesMatch), e);
    }
  }

  /** Every tag of every favourite, in list order (`flatMap`). */
  function AllTagOccurrences(favs: seq<Entry>): seq<string> {
    if favs == [] then [] else favs[0].tags + AllTagOccurrences(favs[1..])
  }

  lemma {:induction false} AllTagOccurrencesMember(favs: seq<Entry>, t: string)
    ensures t in AllTagOccurrences(favs) <==> exists i :: 0 <= i < |favs| && t in favs[i].tags
  {
    if favs != [] {
      AllTagOccurrencesMember(favs[1..], t);
      if exists i :: 0 <= i < |favs| && t in favs[i].tags {
        var i :| 0 <= i < |favs| && t in favs[i].tags;
        if i > 0 {
          assert favs[1..][i - 1] == favs[i];
        }
      }
      if exists i :: 0 <= i < |favs[1..]| && t in favs[1..][i].tags {
        var i :| 0 <= i < |favs[1..]| && t in favs[1..][i].tags;
        assert favs[i + 1] == favs[1..][i];
      }
    }
  }

  /** `Array.from(new Set(s))`: first occurrences, in order, skipping `seen`. */
  function Distinct(s: seq<string>, seen: set<string>): (r: seq<string>)
    ensures forall x :: x in r <==> x in s && x !in seen
    ensures forall i, j :: 0 <= i < j < |r| ==> r[i] != r[j]
  {
    if s == [] then []
    else if s[0] in seen then Distinct(s[1..], seen)
    else
      var t := Distinct(s[1..], seen + {s[0]});
      assert s == [s[0]] + s[1..];
      var r := [s[0]] + t;
      assert forall i :: 1 <= i < |r| ==> r[i] == t[i - 1];
      r
  }

  /** `allTags`: the distinct tags of all favourites, sorted. */
  function AllTags(favs: seq<Entry>): seq<string> {
    Seqs.Sort(Distinct(AllTagOccurrences(favs), {}), Text.StrCmp)
  }

  /** The string order is a consistent comparator. */
  lemma StrCmpConsistent()
    ensures Seqs.Consistent(Text.StrCmp)
  {
    forall a, b ensures Text.StrCmp(a, b) <= 0 <==> Text.StrCmp(b, a) >= 0 {
      Text.StrCmpFlip(a, b);
    }
    forall a, b, c | Text.StrCmp(a, b) <= 0 && Text.StrCmp(b, c) <= 0 ensures Text.StrCmp(a, c) <= 0 {
      Text.StrCmpTrans(a, b, c);
    }
  }

  /** `allTags` is strictly increasing, so sorted and duplicate-free. */
  lemma AllTagsStrictlySorted(favs: seq<Entry>)
    ensures forall i, j :: 0 <= i < j < |AllTags(favs)| ==> Text.StrCmp(AllTags(favs)[i], AllTags(favs)[j]) < 0
  {
    var d := Distinct(AllTagOccurrences(favs), {});
    var r := AllTags(favs);
    StrCmpConsistent();
    Seqs.SortSorted(d, Text.StrCmp);
    Seqs.PermutationNoDuplicates(d, r);
    forall i, j | 0 <= i < j < |r| ensures Text.StrCmp(r[i], r[j]) < 0 {
      Text.StrCmpZero(r[i], r[j]);
    }
  }

  /** `allTags` holds exactly the tags some favourite carries. */
  lemma AllTagsMembers(favs: seq<Entry>)
    ensures forall t :: t in AllTags(favs) <==> exists i :: 0 <= i < |favs| && t in favs[i].tags
  {
    var d := Distinct(AllTagOccurrences(favs), {});
    var r := AllTags(favs);
    forall t ensures t in r <==> exists i :: 0 <= i < |favs| && t in favs[i].tags {
      AllTagOccurrencesMember(favs, t);
      assert t in r <==> t in multiset(r);
      assert t in d <==> t in multiset(d);
    }
  }

  /** The badge count of a tag: how many favourites carry it. */
  function TagCount(favs: seq<Entry>, tag: string): nat {
    Seqs.Count(favs, (e: Entry) => tag in e.tags)
  }

  /** Every listed tag is carried by at least one and at most all favourites. */
  lemma TagCountBounds(favs: seq<Entry>, tag: string)
    requires tag in AllTags(favs)
    ensures 1 <= TagCount(favs, tag) <= |favs|
  {
    AllTagsMembers(favs);
    var i :| 0 <= i < |favs| && tag in favs[i].tags;
    Seqs.CountPositive(favs, (e: Entry) => tag in e.tags, favs[i]);
  }

  /** Clicking a tag's badge with an empty search shows exactly as many books as
      its count. */
  lemma TagCountIsShown(favs: seq<Entry>, tag: string, sortBy: string, sortOrder: string,
                        locale: (string, string) -> int, notesMatch: (seq<string>, string) -> bool)
    requires tag != "" && tag != AllTagsValue
    ensures |Query(favs, "", tag, sortBy, sortOrder, locale, notesMatch)| == TagCount(favs, tag)
  {
    Seqs.FilterCongruent(favs, Keep("", tag, notesMatch), (e: Entry) => tag in e.tags);
  }

  /** A user tag spelled `all` cannot be filtered on: selecting it shows every
      favourite. */
  lemma TagNamedAllShowsEverything(favs: seq<Entry>, sortBy: string, sortOrder: string,
                                   locale: (string, string) -> int, notesMatch: (seq<string>, string) -> bool)
    ensures |Query(favs, "", AllTagsValue, sortBy, sortOrder, locale, notesMatch)| == |favs|
  {
    NoFilterKeepsAll(favs, AllTagsValue, sortBy, sortOrder, locale, notesMatch);
    assert |multiset(Query(favs, "", AllTagsValue, sortBy, sortOrder, locale, notesMatch))| == |multiset(favs)|;
  }

  /** `hasActiveFilters`. */
  predicate HasActiveFilters(q: string, tag: string, sortBy: string, sortOrder: string) {
    q != "" || (tag != "" && tag != AllTagsValue) || sortBy != DefaultSortBy || sortOrder != DefaultSortOrder
  }

  /** With no active filter every favourite is shown, newest first. */
  lemma InactiveFiltersShowAll(favs: seq<Entry>, q: string, tag: string, sortBy: string, sortOrder: string,
                               locale: (string, string) -> int, notesMatch: (seq<string>, string) -> bool)
    requires !HasActiveFilters(q, tag, sortBy, sortOrder)
    ensures var r := Query(favs, q, tag, sortBy, sortOrder, locale, notesMatch);
      && multiset(r) == multiset(favs)
      && forall i, j :: 0 <= i < j < |r| ==> r[i].dateAdded >= r[j].dateAdded
  {
    NoFilterKeepsAll(favs, tag, sortBy, sortOrder, locale, notesMatch);
    QueryNewestFirst(favs, q, tag, locale, notesMatch);
  }

  /**
   * Notes as the program actually stores them: the string `""` for a book added
   * without notes, an array of strings once a note has been edited.
   */
  datatype NotesValue = NotesText(text: string) | NotesArray(items: seq<string>)

  /** The search as written: `book.notes && book.notes.toLowerCase().includes(..)`.
      `None` stands for the TypeError thrown when `toLowerCase` is called on an
      array (every array is truthy, even an empty one). */
  function SearchMatchesAsWritten(title: string, authors: Option<seq<string>>, notes: NotesValue, q: string): (r: Option<bool>)
    ensures r.None? ==> notes.NotesArray?
    ensures notes.NotesText? ==> r.Some?
  {
    if q == "" || ContainsIgnoringCase(title, q) || AuthorMatches(authors, q) then Some(true)
    else match notes
      case NotesText(text) => Some(text != "" && ContainsIgnoringCase(text, q))
      case NotesArray(_) => None
  }

  /** A favourite with one note, searched for a word that is only in the note:
      the written filter throws instead of finding it, while the intended
      search finds it. */
  lemma NotesSearchThrows()
    ensures SearchMatchesAsWritten("Dune", None, NotesArray(["chess"]), "chess").None?
    ensures SearchMatches(Entry(MinimalBook("b1", "Dune"), 0, ["chess"], []), "chess", NotesMatch)
  {
    var d := Text.Lower("Dune");
    assert d == "dune";
    assert !Text.Includes(d, "chess") by {
      assert forall i :: 0 <= i <= |d| - 5 ==> !Text.OccursAt(d, "chess", i);
    }
    assert Text.Lower("chess") == "chess";
    assert Text.OccursAt("chess", "chess", 0);
    assert ContainsIgnoringCase(["chess"][0], "chess");
  }

  /** With the intended notes test, a favourite whose note contains the query
      is always found. */
  lemma NoteFound(e: Entry, q: string, i: nat)
    requires i < |e.notes| && ContainsIgnoringCase(e.notes[i], q)
    ensures SearchMatches(e, q, NotesMatch)
  {
  }

  /** A book carrying only an id and a title. */
  function MinimalBook(id: string, title: string): (b: Book)
    ensures b.id == id && b.title == title
  {
    Book(id, title, None, None, None, None, None, None, None, None, None, None, None, None)
  }

  /**
   * The page's filter state and the handlers that set it.
   */
  class FavoritesView {
    var searchQuery: string
    var selectedTag: string
    var sortBy: string
    var sortOrder: string

    /** The initial state: `""`, `"all"`, `"dateAdded"`, `"desc"`. */
    constructor ()
      ensures searchQuery == DefaultSearch && selectedTag == AllTagsValue
      ensures sortBy == DefaultSortBy && sortOrder == DefaultSortOrder
    {
      searchQuery := DefaultSearch;
      selectedTag := AllTagsValue;
      sortBy := DefaultSortBy;
      sortOrder := DefaultSortOrder;
    }

    /** `hasActiveFilters` on the current state. */
    predicate Active()
      reads this
    {
      HasActiveFilters(searchQuery, selectedTag, sortBy, sortOrder)
    }

    /** The list shown for the current state. */
    function Visible(favs: seq<Entry>, locale: (string, string) -> int,
                     notesMatch: (seq<string>, string) -> bool): seq<Entry>
      reads this
    {
      Query(favs, searchQuery, selectedTag, sortBy, sortOrder, locale, notesMatch)
    }

    /** `clearFilters`: every piece of state back to its default. */
    method ClearFilters()
      modifies this
      ensures searchQuery == DefaultSearch && selectedTag == AllTagsValue
      ensures sortBy == DefaultSortBy && sortOrder == DefaultSortOrder
      ensures !Active()
    {
      searchQuery := DefaultSearch;
      selectedTag := AllTagsValue;
      sortBy := DefaultSortBy;
      sortOrder := DefaultSortOrder;
    }

    /** Typing in the search box; the clear buttons pass `""`. */
    method SetSearchQuery(q: string)
      modifies this
      ensures searchQuery == q
      ensures selectedTag == old(selectedTag) && sortBy == old(sortBy) && sortOrder == old(sortOrder)
    {
      searchQuery := q;
    }

    /** Choosing a tag in the select; the tag chip's clear button passes `"all"`. */
    method SetSelectedTag(tag: string)
      modifies this
      ensures selectedTag == tag
      ensures searchQuery == old(searchQuery) && sortBy == old(sortBy) && sortOrder == old(sortOrder)
    {
      selectedTag := tag;
    }

    /** Choosing the sort key. */
    method SetSortBy(key: string)
      modifies this
      ensures sortBy == key
      ensures searchQuery == old(searchQuery) && selectedTag == old(selectedTag) && sortOrder == old(sortOrder)
    {
      sortBy := key;
    }

    /** The order button: `"asc"` becomes `"desc"`, anything else `"asc"`. */
    method ToggleSortOrder()
      modifies this
      ensures sortOrder == if old(sortOrder) == "asc" then "desc" else "asc"
      ensures old(sortOrder) in {"asc", "desc"} ==> sortOrder in {"asc", "desc"} && sortOrder != old(sortOrder)
      ensures searchQuery == old(searchQuery) && selectedTag == old(selectedTag) && sortBy == old(sortBy)
    {
      sortOrder := if sortOrder == "asc" then "desc" else "asc";
    }

    /** A tag badge: selects the tag, or deselects it back to `"all"`. */
    method ClickTag(tag: string)
      modifies this
      ensures selectedTag == if old(selectedTag) == tag then AllTagsValue else tag
      ensures searchQuery == old(searchQuery) && sortBy == old(sortBy) && sortOrder == old(sortOrder)
    {
      selectedTag := if selectedTag == tag then AllTagsValue else tag;
    }
  }

  /** Clicking a badge twice from the unfiltered view returns to it. */
  method ClickTagTwice(view: FavoritesView, tag: string)
    requires view.selectedTag == AllTagsValue && tag != AllTagsValue
    modifies view
    ensures view.selectedTag == AllTagsValue
  {
    view.ClickTag(tag);
    assert view.selectedTag == tag;
    view.ClickTag(tag);
  }
}
