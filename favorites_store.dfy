/**
 * The favourites repository of src/contexts/FavoritesContext.jsx.
 *
 * Each mutation is `save(prev => next)`: a pure update of the whole list
 * followed by a write of the whole list to local storage.  The pure updates are
 * the functions below; the class `FavoritesRepository` holds the in-memory list
 * and the storage and applies them.
 */
module FavoritesStore {

  import opened Wrappers
  import opened Books
  import Seqs
  import Text

  /** The local-storage key holding the serialised list. */
  const StorageKey: string := "book-explorer-favorites"

  /** `favorites.some(f => f.id === id)`. */
  predicate IsFavorite(favs: seq<Entry>, id: string) {
    exists i :: 0 <= i < |favs| && favs[i].Id() == id
  }

  /** No two entries share an id. */
  ghost predicate UniqueIds(favs: seq<Entry>) {
    forall i, j :: 0 <= i < j < |favs| ==> favs[i].Id() != favs[j].Id()
  }

  /** The updater of `addToFavorites`: unchanged when the id is already present,
      otherwise the new entry appended at the end. */
  function AddUpdate(prev: seq<Entry>, book: Book, now: int, notes: seq<string>, tags: seq<string>): (next: seq<Entry>)
    ensures IsFavorite(next, book.id)
    ensures IsFavorite(prev, book.id) ==> next == prev
    ensures !IsFavorite(prev, book.id) ==> |next| == |prev| + 1 && next[..|prev|] == prev
    ensures !IsFavorite(prev, book.id) ==> next[|prev|] == Entry(book, now, notes, tags)
  {
    if IsFavorite(prev, book.id) then prev
    else
      var next := prev + [Entry(book, now, notes, tags)];
      assert next[|prev|].Id() == book.id;
      next
  }

  /** Adding keeps ids unique. */
  lemma AddKeepsUnique(prev: seq<Entry>, book: Book, now: int, notes: seq<string>, tags: seq<string>)
    requires UniqueIds(prev)
    ensures UniqueIds(AddUpdate(prev, book, now, notes, tags))
  {
    var next := AddUpdate(prev, book, now, notes, tags);
    if !IsFavorite(prev, book.id) {
      forall i, j | 0 <= i < j < |next| ensures next[i].Id() != next[j].Id() {
        if j == |prev| {
          assert next[i] == prev[i];
        } else {
          assert next[i] == prev[i] && next[j] == prev[j];
        }
      }
    }
  }

  /** Adding twice is adding once: the second add keeps the first entry with
      its date, notes and tags. */
  lemma AddIdempotent(prev: seq<Entry>, book: Book, now1: int, now2: int,
                      notes1: seq<string>, notes2: seq<string>, tags1: seq<string>, tags2: seq<string>)
    ensures AddUpdate(AddUpdate(prev, book, now1, notes1, tags1), book, now2, notes2, tags2)
         == AddUpdate(prev, book, now1, notes1, tags1)
  {
  }

  /** The updater of `removeFromFavorites`: `prev.filter(f => f.id !== id)`. */
  function RemoveUpdate(prev: seq<Entry>, id: string): seq<Entry> {
    Seqs.Filter(prev, (e: Entry) => e.Id() != id)
  }

  /** Removing deletes every entry with the id and keeps every other entry, in
      order; the id is no longer a favourite. */
  lemma {:induction false} RemoveSpec(prev: seq<Entry>, id: string)
    ensures !IsFavorite(RemoveUpdate(prev, id), id)
    ensures forall e :: e in RemoveUpdate(prev, id) <==> e in prev && e.Id() != id
    ensures forall other :: other != id ==> (IsFavorite(RemoveUpdate(prev, id), other) <==> IsFavorite(prev, other))
    ensures |RemoveUpdate(prev, id)| <= |prev|
  {
    var keep := (e: Entry) => e.Id() != id;
    Seqs.FilterFacts(prev, keep);
    forall e ensures e in RemoveUpdate(prev, id) <==> e in prev && e.Id() != id {
      Seqs.FilterMember(prev, keep, e);
    }
    var r := RemoveUpdate(prev, id);
    forall other | other != id ensures IsFavorite(r, other) <==> IsFavorite(prev, other) {
      if IsFavorite(prev, other) {
        var i :| 0 <= i < |prev| && prev[i].Id() == other;
        assert prev[i] in r;
      }
    }
  }

  /** Removing an id that is absent changes nothing. */
  lemma {:induction false} RemoveAbsent(prev: seq<Entry>, id: string)
    requires !IsFavorite(prev, id)
    ensures RemoveUpdate(prev, id) == prev
  {
    Seqs.FilterKeepsAll(prev, (e: Entry) => e.Id() != id);
  }

  /** Removing keeps ids unique. */
  lemma {:induction false} RemoveKeepsUnique(prev: seq<Entry>, id: string)
    requires UniqueIds(prev)
    ensures UniqueIds(RemoveUpdate(prev, id))
  {
    if prev != [] {
      var tail := prev[1..];
      assert UniqueIds(tail) by {
        forall i, j | 0 <= i < j < |tail| ensures tail[i].Id() != tail[j].Id() {
          assert tail[i] == prev[i + 1] && tail[j] == prev[j + 1];
        }
      }
      RemoveKeepsUnique(tail, id);
      var rest := RemoveUpdate(tail, id);
      if prev[0].Id() != id {
        assert RemoveUpdate(prev, id) == [prev[0]] + rest;
        forall j | 0 <= j < |rest| ensures prev[0].Id() != rest[j].Id() {
          RemoveSpec(tail, id);
          assert rest[j] in tail;
          var k :| 0 <= k < |tail| && tail[k] == rest[j];
          assert prev[k + 1] == rest[j];
        }
        var r := [prev[0]] + rest;
        forall i, j | 0 <= i < j < |r| ensures r[i].Id() != r[j].Id() {
          if i > 0 {
            assert r[i] == rest[i - 1] && r[j] == rest[j - 1];
          }
        }
      } else {
        assert RemoveUpdate(prev, id) == rest;
      }
    }
  }

  /** The updater of `toggleFavorite`: remove when present, otherwise append the
      new entry. */
  function ToggleUpdate(prev: seq<Entry>, book: Book, now: int, notes: seq<string>, tags: seq<string>): (next: seq<Entry>)
    ensures IsFavorite(next, book.id) <==> !IsFavorite(prev, book.id)
  {
    if IsFavorite(prev, book.id) then
      RemoveSpec(prev, book.id);
      RemoveUpdate(prev, book.id)
    else
      var next := prev + [Entry(book, now, notes, tags)];
      assert next[|prev|].Id() == book.id;
      next
  }

  /** Toggle is a remove when the book is a favourite and an add when it is not. */
  lemma ToggleIsRemoveOrAdd(prev: seq<Entry>, book: Book, now: int, notes: seq<string>, tags: seq<string>)
    ensures IsFavorite(prev, book.id) ==> ToggleUpdate(prev, book, now, notes, tags) == RemoveUpdate(prev, book.id)
    ensures !IsFavorite(prev, book.id) ==> ToggleUpdate(prev, book, now, notes, tags) == AddUpdate(prev, book, now, notes, tags)
  {
  }

  /** Toggling keeps ids unique. */
  lemma ToggleKeepsUnique(prev: seq<Entry>, book: Book, now: int, notes: seq<string>, tags: seq<string>)
    requires UniqueIds(prev)
    ensures UniqueIds(ToggleUpdate(prev, book, now, notes, tags))
  {
    if IsFavorite(prev, book.id) {
      RemoveKeepsUnique(prev, book.id);
    } else {
      AddKeepsUnique(prev, book, now, notes, tags);
    }
  }

  /** Toggling a book that is not a favourite twice restores the list. */
  lemma {:induction false} ToggleTwiceAbsent(prev: seq<Entry>, book: Book, now1: int, now2: int,
                                             notes1: seq<string>, notes2: seq<string>,
                                             tags1: seq<string>, tags2: seq<string>)
    requires !IsFavorite(prev, book.id)
    ensures ToggleUpdate(ToggleUpdate(prev, book, now1, notes1, tags1), book, now2, notes2, tags2) == prev
  {
    var e := Entry(book, now1, notes1, tags1);
    var keep := (x: Entry) => x.Id() != book.id;
    Seqs.FilterAppend(prev, [e], keep);
    RemoveAbsent(prev, book.id);
    assert Seqs.Filter([e], keep) == [];
  }

  /** Toggling a favourite twice does not restore the list: the entry moves to
      the end with the second call's date, notes and tags. */
  lemma ToggleTwicePresent(prev: seq<Entry>, book: Book, now1: int, now2: int,
                           notes1: seq<string>, notes2: seq<string>,
                           tags1: seq<string>, tags2: seq<string>)
    requires IsFavorite(prev, book.id)
    ensures ToggleUpdate(ToggleUpdate(prev, book, now1, notes1, tags1), book, now2, notes2, tags2)
         == RemoveUpdate(prev, book.id) + [Entry(book, now2, notes2, tags2)]
  {
    RemoveSpec(prev, book.id);
  }

  /** `prev.map(f => f.id === id ? { ...f, notes } : f)`. */
  function SetNotes(prev: seq<Entry>, id: string, notes: seq<string>): seq<Entry> {
    seq(|prev|, i requires 0 <= i < |prev| => if prev[i].Id() == id then prev[i].(notes := notes) else prev[i])
  }

  /** `prev.map(f => f.id === id ? { ...f, tags } : f)`. */
  function SetTags(prev: seq<Entry>, id: string, tags: seq<string>): seq<Entry> {
    seq(|prev|, i requires 0 <= i < |prev| => if prev[i].Id() == id then prev[i].(tags := tags) else prev[i])
  }

  /** Updating notes replaces only the notes of the entries with that id:
      length, order, ids, dates and tags stay. */
  lemma SetNotesSpec(prev: seq<Entry>, id: string, notes: seq<string>)
    ensures |SetNotes(prev, id, notes)| == |prev|
    ensures forall i :: 0 <= i < |prev| ==>
      var e := SetNotes(prev, id, notes)[i];
      && e.book == prev[i].book && e.dateAdded == prev[i].dateAdded && e.tags == prev[i].tags
      && e.notes == (if prev[i].Id() == id then notes else prev[i].notes)
  {
  }

  /** Updating tags replaces only the tags of the entries with that id. */
  lemma SetTagsSpec(prev: seq<Entry>, id: string, tags: seq<string>)
    ensures |SetTags(prev, id, tags)| == |prev|
    ensures forall i :: 0 <= i < |prev| ==>
      var e := SetTags(prev, id, tags)[i];
      && e.book == prev[i].book && e.dateAdded == prev[i].dateAdded && e.notes == prev[i].notes
      && e.tags == (if prev[i].Id() == id then tags else prev[i].tags)
  {
  }

  /** Updates to an unknown id change nothing. */
  lemma UpdateUnknownId(prev: seq<Entry>, id: string, notes: seq<string>, tags: seq<string>)
    requires !IsFavorite(prev, id)
    ensures SetNotes(prev, id, notes) == prev
    ensures SetTags(prev, id, tags) == prev
  {
  }

  /** Updates keep the ids, position by position, so they keep ids unique and
      change no one's favourite status. */
  lemma UpdatesKeepIds(prev: seq<Entry>, id: string, notes: seq<string>, tags: seq<string>)
    ensures UniqueIds(prev) ==> UniqueIds(SetNotes(prev, id, notes)) && UniqueIds(SetTags(prev, id, tags))
    ensures forall x :: IsFavorite(SetNotes(prev, id, notes), x) <==> IsFavorite(prev, x)
    ensures forall x :: IsFavorite(SetTags(prev, id, tags), x) <==> IsFavorite(prev, x)
  {
    var n, t := SetNotes(prev, id, notes), SetTags(prev, id, tags);
    assert forall i :: 0 <= i < |prev| ==> n[i].Id() == prev[i].Id() && t[i].Id() == prev[i].Id();
  }

  /** The entry with the given id, if there is one (`favorites.find`). */
  function Find(favs: seq<Entry>, id: string): (r: Option<Entry>)
    ensures r.Some? <==> IsFavorite(favs, id)
    ensures r.Some? ==> r.value in favs && r.value.Id() == id
  {
    if favs == [] then None
    else if favs[0].Id() == id then Some(favs[0])
    else
      var r := Find(favs[1..], id);
      assert IsFavorite(favs, id) <==> IsFavorite(favs[1..], id) by {
        if IsFavorite(favs, id) {
          var i :| 0 <= i < |favs| && favs[i].Id() == id;
          assert favs[1..][i - 1] == favs[i];
        }
        if IsFavorite(favs[1..], id) {
          var i :| 0 <= i < |favs[1..]| && favs[1..][i].Id() == id;
          assert favs[i + 1] == favs[1..][i];
        }
      }
      r
  }

  /** After a notes update the entry found for the id carries the new notes. */
  lemma {:induction false} FindSetNotes(favs: seq<Entry>, id: string, notes: seq<string>)
    ensures Find(SetNotes(favs, id, notes), id)
         == if Find(favs, id).Some? then Some(Find(favs, id).value.(notes := notes)) else None
  {
    if favs != [] && favs[0].Id() != id {
      FindSetNotes(favs[1..], id, notes);
      assert SetNotes(favs, id, notes)[1..] == SetNotes(favs[1..], id, notes);
    }
  }

  /** After a tags update the entry found for the id carries the new tags. */
  lemma {:induction false} FindSetTags(favs: seq<Entry>, id: string, tags: seq<string>)
    ensures Find(SetTags(favs, id, tags), id)
         == if Find(favs, id).Some? then Some(Find(favs, id).value.(tags := tags)) else None
  {
    if favs != [] && favs[0].Id() != id {
      FindSetTags(favs[1..], id, tags);
      assert SetTags(favs, id, tags)[1..] == SetTags(favs[1..], id, tags);
    }
  }

  /** An entry appended for a new id is the one found for that id. */
  lemma {:induction false} FindAppended(prev: seq<Entry>, e: Entry)
    requires !IsFavorite(prev, e.Id())
    ensures Find(prev + [e], e.Id()) == Some(e)
  {
    if prev != [] {
      assert (prev + [e])[1..] == prev[1..] + [e];
      assert forall i :: 0 <= i < |prev[1..]| ==> prev[1..][i] == prev[i + 1];
      assert prev[0].Id() != e.Id();
      FindAppended(prev[1..], e);
    }
  }

  /** What `JSON.parse` yields: a failure, a value that is not an array, or an
      array of entries. */
  datatype Parsed = Malformed | NotAnArray | AnArray(entries: seq<Entry>)

  /** What the load step does with the stored text: the list to adopt, if any,
      and whether to remove the key. */
  datatype LoadOutcome = LoadOutcome(adopt: Option<seq<Entry>>, removeKey: bool)

  /** The text is missing, empty, the literal `undefined` or `null`, or blank. */
  predicate NoStoredList(raw: Option<string>) {
    raw.None? || raw.value == "" || raw.value == "undefined" || raw.value == "null" || Text.Trim(raw.value) == ""
  }

  /** The load effect's decision for a stored text `raw`. */
  function Recover(raw: Option<string>, decode: string -> Parsed): (r: LoadOutcome)
    ensures r.adopt.Some? <==> !NoStoredList(raw) && decode(raw.value).AnArray?
    ensures r.adopt.Some? ==> r.adopt.value == decode(raw.value).entries
    ensures r.removeKey <==> raw.Some? && raw.value != "" && r.adopt.None?
  {
    if NoStoredList(raw) then LoadOutcome(None, raw.Some? && raw.value != "")
    else match decode(raw.value)
      case AnArray(entries) => LoadOutcome(Some(entries), false)
      case _ => LoadOutcome(None, true)
  }

  /** A JSON codec: decoding an encoded list gives it back, and an encoded list
      is an array literal (it starts with `[`). */
  ghost predicate FaithfulCodec(encode: seq<Entry> -> string, decode: string -> Parsed) {
    forall c :: decode(encode(c)) == AnArray(c) && Text.StartsWith(encode(c), "[")
  }

  /** Loading what save wrote adopts exactly the saved list and keeps the key. */
  lemma LoadAfterSave(c: seq<Entry>, encode: seq<Entry> -> string, decode: string -> Parsed)
    requires FaithfulCodec(encode, decode)
    ensures Recover(Some(encode(c)), decode) == LoadOutcome(Some(c), false)
  {
    var s := encode(c);
    assert s[0] == '[';
    Text.TrimEmptyIffBlank(s);
    assert !Text.IsBlank(s);
    assert s != "undefined" && s != "null";
  }

  /** Corrupt or placeholder text is never adopted, and any non-empty such text
      is removed. */
  lemma CorruptDataRecovery(raw: string, decode: string -> Parsed)
    requires raw in {"undefined", "null"} || (raw != "" && Text.IsBlank(raw)) || !decode(raw).AnArray?
    ensures Recover(Some(raw), decode).adopt.None?
    ensures raw != "" ==> Recover(Some(raw), decode).removeKey
  {
    Text.TrimEmptyIffBlank(raw);
  }

  /**
   * The favourites provider: the in-memory list, the browser's local storage
   * (as a map from keys to texts) and the JSON codec.
   */
  class FavoritesRepository {
    var favorites: seq<Entry>
    var storage: map<string, string>
    const encode: seq<Entry> -> string
    const decode: string -> Parsed

    /** The provider starts with an empty list (`useState([])`). */
    constructor (storage0: map<string, string>, encode: seq<Entry> -> string, decode: string -> Parsed)
      ensures favorites == [] && storage == storage0
      ensures this.encode == encode && this.decode == decode
    {
      favorites := [];
      storage := storage0;
      this.encode := encode;
      this.decode := decode;
    }

    /** The stored text under the key (`localStorage.getItem`). */
    function Stored(): Option<string>
      reads this
    {
      if StorageKey in storage then Some(storage[StorageKey]) else None
    }

    /** The mount effect: adopt a stored array, otherwise leave the list as it is
        and remove a corrupt or placeholder value. */
    method Load()
      modifies this
      ensures favorites == Recover(old(Stored()), decode).adopt.GetOr(old(favorites))
      ensures storage == if Recover(old(Stored()), decode).removeKey then old(storage) - {StorageKey} else old(storage)
    {
      var raw := Stored();
      if NoStoredList(raw) {
        if raw.Some? && raw.value != "" {
          storage := storage - {StorageKey};
        }
        return;
      }
      var parsed := decode(raw.value);
      if parsed.AnArray? {
        favorites := parsed.entries;
      } else {
        storage := storage - {StorageKey};
      }
    }

    /** `save(updater)`: the new list always becomes the state; the serialised
        list is written only when the write succeeds (`writeOk`), and a failed
        write is swallowed. */
    method Save(update: seq<Entry> -> seq<Entry>, writeOk: bool)
      modifies this
      ensures favorites == update(old(favorites))
      ensures storage == if writeOk then old(storage)[StorageKey := encode(favorites)] else old(storage)
    {
      var next := update(favorites);
      if writeOk {
        storage := storage[StorageKey := encode(next)];
      }
      favorites := next;
    }

    /** `addToFavorites(book, notes, tags)`; `now` is the current time. */
    method AddToFavorites(book: Book, notes: seq<string>, tags: seq<string>, now: int, writeOk: bool)
      modifies this
      ensures favorites == AddUpdate(old(favorites), book, now, notes, tags)
      ensures storage == if writeOk then old(storage)[StorageKey := encode(favorites)] else old(storage)
      ensures UniqueIds(old(favorites)) ==> UniqueIds(favorites)
    {
      Save(prev => AddUpdate(prev, book, now, notes, tags), writeOk);
      if UniqueIds(old(favorites)) {
        AddKeepsUnique(old(favorites), book, now, notes, tags);
      }
    }

    /** `removeFromFavorites(id)`. */
    method RemoveFromFavorites(id: string, writeOk: bool)
      modifies this
      ensures favorites == RemoveUpdate(old(favorites), id)
      ensures storage == if writeOk then old(storage)[StorageKey := encode(favorites)] else old(storage)
      ensures !IsFavorite(favorites, id)
      ensures UniqueIds(old(favorites)) ==> UniqueIds(favorites)
    {
      Save(prev => RemoveUpdate(prev, id), writeOk);
      RemoveSpec(old(favorites), id);
      if UniqueIds(old(favorites)) {
        RemoveKeepsUnique(old(favorites), id);
      }
    }

    /** `toggleFavorite(book, notes, tags)`. */
    method ToggleFavorite(book: Book, notes: seq<string>, tags: seq<string>, now: int, writeOk: bool)
      modifies this
      ensures favorites == ToggleUpdate(old(favorites), book, now, notes, tags)
      ensures storage == if writeOk then old(storage)[StorageKey := encode(favorites)] else old(storage)
      ensures UniqueIds(old(favorites)) ==> UniqueIds(favorites)
    {
      Save(prev => ToggleUpdate(prev, book, now, notes, tags), writeOk);
      if UniqueIds(old(favorites)) {
        ToggleKeepsUnique(old(favorites), book, now, notes, tags);
      }
    }

    /** `updateFavoriteNotes(id, notes)`. */
    method UpdateFavoriteNotes(id: string, notes: seq<string>, writeOk: bool)
      modifies this
      ensures favorites == SetNotes(old(favorites), id, notes)
      ensures storage == if writeOk then old(storage)[StorageKey := encode(favorites)] else old(storage)
      ensures UniqueIds(old(favorites)) ==> UniqueIds(favorites)
    {
      Save(prev => SetNotes(prev, id, notes), writeOk);
      UpdatesKeepIds(old(favorites), id, notes, []);
    }

    /** `updateFavoriteTags(id, tags)`. */
    method UpdateFavoriteTags(id: string, tags: seq<string>, writeOk: bool)
      modifies this
      ensures favorites == SetTags(old(favorites), id, tags)
      ensures storage == if writeOk then old(storage)[StorageKey := encode(favorites)] else old(storage)
      ensures UniqueIds(old(favorites)) ==> UniqueIds(favorites)
    {
      Save(prev => SetTags(prev, id, tags), writeOk);
      UpdatesKeepIds(old(favorites), id, [], tags);
    }

    /** `isFavorite(id)` on the current list. */
    function IsFavoriteNow(id: string): bool
      reads this
    {
      IsFavorite(favorites, id)
    }
  }

  /** Saving the list just loaded rewrites the same text: a load followed by a
      save leaves the storage as it was. */
  method LoadThenSaveKeepsStorage(repo: FavoritesRepository, c: seq<Entry>)
    requires FaithfulCodec(repo.encode, repo.decode)
    requires StorageKey in repo.storage && repo.storage[StorageKey] == repo.encode(c)
    modifies repo
    ensures repo.favorites == c
    ensures repo.storage == old(repo.storage)
  {
    LoadAfterSave(c, repo.encode, repo.decode);
    repo.Load();
    repo.Save(prev => prev, true);
  }
}
