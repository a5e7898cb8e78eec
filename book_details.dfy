/**
 * The note and tag editing of the book details page (src/pages/BookDetails.jsx).
 *
 * The page keeps the book being shown, local copies of its notes and tags, and
 * the two input boxes.  Its effects keep the local copies equal to the stored
 * entry while the book is a favourite (and empty otherwise); that is the
 * invariant `Synced` here, which every handler preserves.  The policies are
 * pure functions; the handlers apply them and call the repository.
 */
module BookDetails {

  import opened Wrappers
  import opened Books
  import Text
  import Seqs
  import opened FavoritesStore

  /** At most this many notes can be saved for a book. */
  const MaxNotes: nat := 5

  /** What adding a note does. */
  datatype NoteOutcome = NoteIgnored | LimitReached | NoteAdded(notes: seq<string>)

  /** The note policy: blank input is ignored, a full list is refused, otherwise
      the trimmed text is appended. */
  function AddNote(notes: seq<string>, input: string): NoteOutcome {
    if Text.Trim(input) == "" then NoteIgnored
    else if |notes| >= MaxNotes then LimitReached
    else NoteAdded(notes + [Text.Trim(input)])
  }

  /** Whitespace-only input is ignored; otherwise a sixth note is refused and
      any earlier one is appended, trimmed, so a list of at most five notes
      stays at most five long. */
  lemma AddNotePolicy(notes: seq<string>, input: string)
    ensures AddNote(notes, input).NoteIgnored? <==> Text.IsBlank(input)
    ensures AddNote(notes, input).LimitReached? <==> !Text.IsBlank(input) && |notes| >= MaxNotes
    ensures AddNote(notes, input).NoteAdded? ==>
      AddNote(notes, input).notes == notes + [Text.Trim(input)] && |AddNote(notes, input).notes| <= MaxNotes
  {
    Text.TrimEmptyIffBlank(input);
  }

  /** A note that is added is non-empty and has no surrounding white space. */
  lemma AddedNoteIsTrimmed(notes: seq<string>, input: string)
    requires AddNote(notes, input).NoteAdded?
    ensures var n := AddNote(notes, input).notes[|notes|];
      n != "" && !Text.IsSpace(n[0]) && !Text.IsSpace(n[|n| - 1]) && Text.Trim(n) == n
  {
    var n := Text.Trim(input);
    assert AddNote(notes, input).notes[|notes|] == n;
    Text.TrimOfTrimmed(n);
  }

  /** `notes.filter(note => note !== text)`. */
  function RemoveValue(items: seq<string>, text: string): seq<string> {
    Seqs.Filter(items, (x: string) => x != text)
  }

  /** Removing a value drops every copy of it and keeps every other value, as
      often as before, in order. */
  lemma RemoveValueSpec(items: seq<string>, text: string)
    ensures multiset(RemoveValue(items, text)) == multiset(items)[text := 0]
    ensures text !in RemoveValue(items, text)
    ensures |RemoveValue(items, text)| == |items| - multiset(items)[text]
  {
    Seqs.FilterOutValue(items, (x: string) => x != text, text);
    assert text !in multiset(RemoveValue(items, text));
  }

  /** The tag a typed input becomes: trimmed, then lower-cased. */
  function NormalizeTag(input: string): (t: string)
    ensures |t| == |Text.Trim(input)|
  {
    Text.Lower(Text.Trim(input))
  }

  /** A normalised tag is already normal: normalising again changes nothing. */
  lemma NormalizeTagIdempotent(input: string)
    ensures NormalizeTag(NormalizeTag(input)) == NormalizeTag(input)
  {
    var t := Text.Trim(input);
    var l := Text.Lower(t);
    Text.LowerKeepsSpace(t);
    if l != [] {
      assert !Text.IsSpace(l[0]) && !Text.IsSpace(l[|l| - 1]);
    }
    Text.TrimOfTrimmed(l);
    Text.LowerIdempotent(t);
  }

  /** What adding a tag does. */
  datatype TagOutcome = TagIgnored | DuplicateTag | TagAdded(tags: seq<string>)

  /** The tag policy: blank input is ignored, a tag already present is refused,
      otherwise the normalised tag is appended. */
  function AddTag(tags: seq<string>, input: string): TagOutcome {
    if Text.Trim(input) == "" then TagIgnored
    else
      var tag := NormalizeTag(input);
      if tag in tags then DuplicateTag else TagAdded(tags + [tag])
  }

  /** Whitespace-only input is ignored; a tag whose normal form is already
      present is refused as a duplicate; any other is appended in normal form. */
  lemma AddTagPolicy(tags: seq<string>, input: string)
    ensures AddTag(tags, input).TagIgnored? <==> Text.IsBlank(input)
    ensures AddTag(tags, input).DuplicateTag? <==> !Text.IsBlank(input) && NormalizeTag(input) in tags
    ensures AddTag(tags, input).TagAdded? ==>
      AddTag(tags, input).tags == tags + [NormalizeTag(input)] && NormalizeTag(input) !in tags
  {
    Text.TrimEmptyIffBlank(input);
  }

  /** Adding tags keeps a duplicate-free tag list duplicate-free. */
  lemma AddTagKeepsDistinct(tags: seq<string>, input: string)
    requires Seqs.NoDuplicates(tags)
    ensures AddTag(tags, input).TagAdded? ==> Seqs.NoDuplicates(AddTag(tags, input).tags)
  {
    if AddTag(tags, input).TagAdded? {
      var r := AddTag(tags, input).tags;
      assert forall i :: 0 <= i < |tags| ==> r[i] == tags[i];
    }
  }

  /**
   * The book details page: the book shown (`None` while loading or after an
   * error), the local notes and tags, the two input boxes, and the favourites
   * repository.
   */
  class DetailsPage {
    var book: Option<Book>
    var notes: seq<string>
    var tags: seq<string>
    var newNote: string
    var newTag: string
    const store: FavoritesRepository

    /** The local notes and tags mirror the stored entry of a favourite and are
        empty for any other book. */
    predicate Synced()
      reads this, store
    {
      book.Some? ==>
        match Find(store.favorites, book.value.id)
        case Some(e) => notes == e.notes && tags == e.tags
        case None => notes == [] && tags == []
    }

    /** The page after the book has been fetched and synchronised with the
        repository. */
    constructor (store: FavoritesRepository, book: Option<Book>)
      ensures this.store == store && this.book == book
      ensures newNote == "" && newTag == ""
      ensures Synced()
    {
      this.store := store;
      this.book := book;
      newNote := "";
      newTag := "";
      var found := if book.Some? then Find(store.favorites, book.value.id) else None;
      if found.Some? {
        notes := found.value.notes;
        tags := found.value.tags;
      } else {
        notes := [];
        tags := [];
      }
    }

    /** Whether the shown book is a favourite (`isBookFavorite`). */
    predicate IsBookFavorite()
      reads this, store
    {
      book.Some? && IsFavorite(store.favorites, book.value.id)
    }

    /** The heart button: a favourite is removed and the local notes and tags are
        cleared; any other book is added with the local notes and tags. */
    method HandleFavoriteToggle(now: int, writeOk: bool)
      requires Synced()
      modifies this, store
      ensures Synced()
      ensures book == old(book) && newNote == old(newNote) && newTag == old(newTag)
      ensures old(book).None? ==> unchanged(store) && notes == old(notes) && tags == old(tags)
      ensures old(IsBookFavorite()) ==>
        store.favorites == RemoveUpdate(old(store.favorites), book.value.id) && notes == [] && tags == []
      ensures old(book).Some? && !old(IsBookFavorite()) ==>
        store.favorites == AddUpdate(old(store.favorites), book.value, now, old(notes), old(tags))
        && notes == old(notes) && tags == old(tags)
      ensures old(book).Some? ==> store.storage == if writeOk then old(store.storage)[StorageKey := store.encode(store.favorites)] else old(store.storage)
    {
      if book.None? {
        return;
      }
      var b := book.value;
      if store.IsFavoriteNow(b.id) {
        store.RemoveFromFavorites(b.id, writeOk);
        notes := [];
        tags := [];
      } else {
        ghost var prev := store.favorites;
        store.AddToFavorites(b, notes, tags, now, writeOk);
        FindAppended(prev, Entry(b, now, notes, tags));
      }
    }

    /** Saving the text of the note box as a new note. */
    method HandleAddNote(writeOk: bool) returns (outcome: NoteOutcome)
      requires Synced()
      modifies this, store
      ensures Synced()
      ensures book == old(book) && tags == old(tags) && newTag == old(newTag)
      ensures !old(IsBookFavorite()) ==> outcome == NoteIgnored
      ensures old(IsBookFavorite()) ==> outcome == AddNote(old(notes), old(newNote))
      ensures outcome.NoteAdded? ==>
        && notes == outcome.notes
        && store.favorites == SetNotes(old(store.favorites), book.value.id, outcome.notes)
        && store.storage == (if writeOk then old(store.storage)[StorageKey := store.encode(store.favorites)] else old(store.storage))
        && newNote == ""
      ensures !outcome.NoteAdded? ==> unchanged(store) && notes == old(notes) && newNote == old(newNote)
    {
      if book.None? || !store.IsFavoriteNow(book.value.id) {
        return NoteIgnored;
      }
      outcome := AddNote(notes, newNote);
      if outcome.NoteAdded? {
        var updated := outcome.notes;
        notes := updated;
        ghost var prev := store.favorites;
        store.UpdateFavoriteNotes(book.value.id, updated, writeOk);
        FindSetNotes(prev, book.value.id, updated);
        newNote := "";
      }
    }

    /** The delete button of a note: every note equal to it goes.  The page
        draws the button only for a favourite with notes. */
    method HandleRemoveNote(note: string, writeOk: bool)
      requires Synced() && IsBookFavorite()
      modifies this, store
      ensures Synced()
      ensures book == old(book) && tags == old(tags) && newNote == old(newNote) && newTag == old(newTag)
      ensures notes == RemoveValue(old(notes), note)
      ensures store.favorites == SetNotes(old(store.favorites), book.value.id, notes)
      ensures store.storage == if writeOk then old(store.storage)[StorageKey := store.encode(store.favorites)] else old(store.storage)
    {
      var updated := RemoveValue(notes, note);
      notes := updated;
      ghost var prev := store.favorites;
      store.UpdateFavoriteNotes(book.value.id, updated, writeOk);
      FindSetNotes(prev, book.value.id, updated);
    }

    /** Saving the text of the tag box as a new tag. */
    method HandleAddTag(writeOk: bool) returns (outcome: TagOutcome)
      requires Synced()
      modifies this, store
      ensures Synced()
      ensures book == old(book) && notes == old(notes) && newNote == old(newNote)
      ensures !old(IsBookFavorite()) ==> outcome == TagIgnored
      ensures old(IsBookFavorite()) ==> outcome == AddTag(old(tags), old(newTag))
      ensures outcome.TagAdded? ==>
        && tags == outcome.tags
        && store.favorites == SetTags(old(store.favorites), book.value.id, outcome.tags)
        && store.storage == (if writeOk then old(store.storage)[StorageKey := store.encode(store.favorites)] else old(store.storage))
        && newTag == ""
      ensures !outcome.TagAdded? ==> unchanged(store) && tags == old(tags) && newTag == old(newTag)
    {
      if book.None? || !store.IsFavoriteNow(book.value.id) {
        return TagIgnored;
      }
      outcome := AddTag(tags, newTag);
      if outcome.TagAdded? {
        var updated := outcome.tags;
        tags := updated;
        ghost var prev := store.favorites;
        store.UpdateFavoriteTags(book.value.id, updated, writeOk);
        FindSetTags(prev, book.value.id, updated);
        newTag := "";
      }
    }

    /** The delete button of a tag: every copy of it goes, for a favourite only. */
    method HandleRemoveTag(tag: string, writeOk: bool)
      requires Synced()
      modifies this, store
      ensures Synced()
      ensures book == old(book) && notes == old(notes) && newNote == old(newNote) && newTag == old(newTag)
      ensures !old(IsBookFavorite()) ==> unchanged(store) && tags == old(tags)
      ensures old(IsBookFavorite()) ==>
        tags == RemoveValue(old(tags), tag) && store.favorites == SetTags(old(store.favorites), book.value.id, tags)
        && store.storage == (if writeOk then old(store.storage)[StorageKey := store.encode(store.favorites)] else old(store.storage))
    {
      if book.None? || !store.IsFavoriteNow(book.value.id) {
        return;
      }
      var updated := RemoveValue(tags, tag);
      tags := updated;
      ghost var prev := store.favorites;
      store.UpdateFavoriteTags(book.value.id, updated, writeOk);
      FindSetTags(prev, book.value.id, updated);
    }
  }
}
