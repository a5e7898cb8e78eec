/**
 * The text shown on a search result card (src/components/BookCard.jsx): the
 * truncated and cleaned description, the cover URL, the author line and the
 * category badges, plus the card's heart button.
 */
module BookCard {

  import opened Wrappers
  import opened Books
  import Text
  import opened FavoritesStore

  const Ellipsis: string := "..."
  const NoDescription: string := "No description available."
  const UnknownAuthor: string := "Unknown Author"
  const DescriptionLength: nat := 150

  /** `truncateText`: short texts are kept; longer ones are cut to `maxLength`,
      trimmed, and end in an ellipsis. */
  function TruncateText(text: string, maxLength: nat): (r: string)
    ensures |text| <= maxLength ==> r == text
    ensures |text| > maxLength ==> |r| <= maxLength + |Ellipsis|
  {
    if |text| <= maxLength then text else Text.Trim(text[..maxLength]) + Ellipsis
  }

  /** A text longer than the limit becomes the part of its first `maxLength`
      characters left once the white space on both sides is dropped, followed
      by the ellipsis. */
  lemma TruncateTextSpec(text: string, maxLength: nat)
    requires |text| > maxLength
    ensures var r := TruncateText(text, maxLength);
      && |r| >= |Ellipsis| && r[|r| - |Ellipsis|..] == Ellipsis
      && var body, a := r[..|r| - |Ellipsis|], Text.TrimOffset(text[..maxLength]);
         && a + |body| <= maxLength && body == text[a..a + |body|]
         && Text.IsBlank(text[..a]) && Text.IsBlank(text[a + |body|..maxLength])
         && (body == [] || (!Text.IsSpace(body[0]) && !Text.IsSpace(body[|body| - 1])))
  {
    var u := text[..maxLength];
    var body := Text.Trim(u);
    Text.TrimSpec(u);
    var r := TruncateText(text, maxLength);
    assert r == body + Ellipsis;
    assert r[..|r| - |Ellipsis|] == body;
    var a := Text.TrimOffset(u);
    assert u[a..a + |body|] == text[a..a + |body|];
    assert u[..a] == text[..a];
    assert u[a + |body|..] == text[a + |body|..maxLength];
  }

  /** No `<` is followed, anywhere later, by a `>`. */
  predicate NoTag(s: string) {
    if s == [] then true
    else if s[0] == '<' then '>' !in s
    else NoTag(s[1..])
  }

  /** `NoTag` read by positions. */
  lemma {:induction false} NoTagByPositions(s: string)
    ensures NoTag(s) <==> forall i, j :: 0 <= i < j < |s| && s[i] == '<' ==> s[j] != '>'
  {
    if s != [] {
      NoTagByPositions(s[1..]);
      if s[0] != '<' {
        assert forall i, j :: 0 < i < j < |s| ==> s[i] == s[1..][i - 1] && s[j] == s[1..][j - 1];
      } else if '>' in s {
        var j :| 0 <= j < |s| && s[j] == '>';
        assert j > 0;
      }
    }
  }

  /** The rest of `s` after the first `c`. */
  function AfterFirst(s: string, c: char): (r: string)
    requires c in s
    ensures |r| < |s| && r == s[|s| - |r|..]
  {
    if s[0] == c then s[1..] else AfterFirst(s[1..], c)
  }

  /** `.replace(/<[^>]*>/g, "")`: each `<` with a `>` after it is removed
      together with everything up to the first such `>`; a `<` with none after
      it is kept with the rest of the text. */
  function StripTags(s: string): (r: string)
    ensures NoTag(r) && |r| <= |s|
    decreases |s|
  {
    if s == [] then []
    else if s[0] != '<' then [s[0]] + StripTags(s[1..])
    else if '>' in s then StripTags(AfterFirst(s, '>'))
    else s
  }

  /** Text with no `<` passes unchanged. */
  lemma {:induction false} StripTagsPlainText(s: string)
    requires '<' !in s
    ensures StripTags(s) == s
  {
    if s != [] {
      StripTagsPlainText(s[1..]);
      assert s == [s[0]] + s[1..];
    }
  }

  /** `.replace(/\s+/g, " ")`: each run of white space becomes one space. */
  function CollapseSpaces(s: string): (r: string)
    ensures r == [] <==> s == []
    ensures s != [] ==> (Text.IsSpace(r[0]) <==> Text.IsSpace(s[0]))
    decreases |s|
  {
    if s == [] then []
    else if Text.IsSpace(s[0]) then
      Text.TrimStartShortens(s);
      [' '] + CollapseSpaces(Text.TrimStart(s))
    else [s[0]] + CollapseSpaces(s[1..])
  }

  /** Collapsing only turns white space into single spaces: every other
      character of the result comes from the input. */
  lemma {:induction false} CollapseChars(s: string)
    ensures forall x :: x in CollapseSpaces(s) ==> x == ' ' || (x in s && !Text.IsSpace(x))
    decreases |s|
  {
    if s != [] {
      if Text.IsSpace(s[0]) {
        var t := Text.TrimStart(s);
        Text.TrimStartShortens(s);
        Text.TrimStartSuffix(s);
        CollapseChars(t);
        assert forall x :: x in t ==> x in s;
      } else {
        CollapseChars(s[1..]);
      }
    }
  }

  /** No two white-space characters are adjacent. */
  predicate NoDoubleSpace(s: string) {
    forall i :: 0 <= i < |s| - 1 ==> !(Text.IsSpace(s[i]) && Text.IsSpace(s[i + 1]))
  }

  /** A character followed by a text without double white space has none when
      the two do not meet in white space. */
  lemma ConsNoDoubleSpace(c: char, t: string)
    requires NoDoubleSpace(t)
    requires t == [] || !Text.IsSpace(c) || !Text.IsSpace(t[0])
    ensures NoDoubleSpace([c] + t)
  {
    var r := [c] + t;
    assert forall k :: 1 <= k < |r| ==> r[k] == t[k - 1];
  }

  /** After collapsing, no two white-space characters are adjacent. */
  lemma {:induction false} CollapseNoDoubleSpace(s: string)
    ensures NoDoubleSpace(CollapseSpaces(s))
    decreases |s|
  {
    if s != [] {
      if Text.IsSpace(s[0]) {
        var t := Text.TrimStart(s);
        Text.TrimStartShortens(s);
        CollapseNoDoubleSpace(t);
        ConsNoDoubleSpace(' ', CollapseSpaces(t));
      } else {
        CollapseNoDoubleSpace(s[1..]);
        ConsNoDoubleSpace(s[0], CollapseSpaces(s[1..]));
      }
    }
  }

  /** A suffix of a tag-free text is tag-free. */
  lemma {:induction false} NoTagSuffix(s: string, k: nat)
    requires NoTag(s) && k <= |s|
    ensures NoTag(s[k..])
  {
    NoTagByPositions(s);
    NoTagByPositions(s[k..]);
    assert forall i :: 0 <= i < |s| - k ==> s[k..][i] == s[k + i];
  }

  /** A prefix of a tag-free text is tag-free. */
  lemma {:induction false} NoTagPrefix(s: string, k: nat)
    requires NoTag(s) && k <= |s|
    ensures NoTag(s[..k])
  {
    NoTagByPositions(s);
    NoTagByPositions(s[..k]);
  }

  /** Collapsing white space keeps a text tag-free. */
  lemma {:induction false} CollapseKeepsNoTag(s: string)
    requires NoTag(s)
    ensures NoTag(CollapseSpaces(s))
    decreases |s|
  {
    if s != [] {
      if Text.IsSpace(s[0]) {
        var t := Text.TrimStart(s);
        Text.TrimStartShortens(s);
        Text.TrimStartSuffix(s);
        NoTagSuffix(s, |s| - |t|);
        CollapseKeepsNoTag(t);
        assert ([' '] + CollapseSpaces(t))[1..] == CollapseSpaces(t);
      } else if s[0] == '<' {
        CollapseChars(s);
        assert '>' !in CollapseSpaces(s);
      } else {
        CollapseKeepsNoTag(s[1..]);
        assert ([s[0]] + CollapseSpaces(s[1..]))[1..] == CollapseSpaces(s[1..]);
      }
    }
  }

  /** An infix of a tag-free text without double white space is both. */
  lemma InfixKeeps(s: string, a: nat, b: nat)
    requires a <= b <= |s|
    ensures NoTag(s) ==> NoTag(s[a..b])
    ensures NoDoubleSpace(s) ==> NoDoubleSpace(s[a..b])
  {
    if NoTag(s) {
      NoTagSuffix(s, a);
      NoTagPrefix(s[a..], b - a);
      assert s[a..][..b - a] == s[a..b];
    }
    assert forall i :: 0 <= i < b - a ==> s[a..b][i] == s[a + i];
  }

  /** Trimming keeps both properties and removes leading white space. */
  lemma TrimKeeps(s: string)
    requires NoTag(s) && NoDoubleSpace(s)
    ensures var t := Text.Trim(s);
      NoTag(t) && NoDoubleSpace(t) && (t == [] || !Text.IsSpace(t[0]))
  {
    var a := Text.TrimOffset(s);
    Text.TrimSpec(s);
    InfixKeeps(s, a, a + |Text.Trim(s)|);
  }

  /** Appending text without angle brackets keeps a text tag-free. */
  lemma {:induction false} NoTagAppend(x: string, y: string)
    requires NoTag(x) && '<' !in y && '>' !in y
    ensures NoTag(x + y)
  {
    if x == [] {
      assert x + y == y;
      NoTagByPositions(y);
    } else {
      assert (x + y)[1..] == x[1..] + y;
      if x[0] != '<' {
        NoTagAppend(x[1..], y);
      }
    }
  }

  /** Appending the ellipsis to a text that does not end in white space adds
      no double white space. */
  lemma EllipsisNoDoubleSpace(v: string)
    requires NoDoubleSpace(v) && (v == [] || !Text.IsSpace(v[|v| - 1]))
    ensures NoDoubleSpace(v + Ellipsis)
  {
    var r := v + Ellipsis;
    assert forall i :: 0 <= i < |v| ==> r[i] == v[i];
    assert forall i :: |v| <= i < |r| ==> r[i] == '.';
  }

  /** Truncating keeps both properties and the absence of leading white space,
      and bounds the length by the limit plus the ellipsis. */
  lemma TruncateKeeps(t: string, n: nat)
    requires NoTag(t) && NoDoubleSpace(t) && (t == [] || !Text.IsSpace(t[0]))
    ensures var r := TruncateText(t, n);
      && NoTag(r) && NoDoubleSpace(r) && (r == [] || !Text.IsSpace(r[0]))
      && |r| <= n + |Ellipsis|
  {
    if |t| > n {
      var u := t[..n];
      InfixKeeps(t, 0, n);
      TrimKeeps(u);
      var v := Text.Trim(u);
      NoTagAppend(v, Ellipsis);
      EllipsisNoDoubleSpace(v);
      assert (v + Ellipsis)[0] == if v == [] then '.' else v[0];
    }
  }

  /** `cleanDescription`. */
  function CleanDescription(description: Option<string>): string {
    if description.None? || description.value == "" then NoDescription
    else TruncateText(Text.Trim(CollapseSpaces(StripTags(description.value))), DescriptionLength)
  }

  /** A missing or empty description shows the placeholder.  Any other
      cleaned description has no `<` followed later by `>`, no two adjacent
      white-space characters, no leading white space, and at most 153
      characters. */
  lemma CleanDescriptionSpec(description: Option<string>)
    ensures description.None? || description.value == "" ==> CleanDescription(description) == NoDescription
    ensures description.Some? && description.value != "" ==>
      var r := CleanDescription(description);
      && NoTag(r)
      && NoDoubleSpace(r)
      && (r == [] || !Text.IsSpace(r[0]))
      && |r| <= DescriptionLength + |Ellipsis|
  {
    if description.Some? && description.value != "" {
      var c := CollapseSpaces(StripTags(description.value));
      CollapseKeepsNoTag(StripTags(description.value));
      CollapseNoDoubleSpace(StripTags(description.value));
      TrimKeeps(c);
      TruncateKeeps(Text.Trim(c), DescriptionLength);
    }
  }

  /** The cover shown: an image URL or the bundled placeholder. */
  datatype Cover = CoverUrl(url: string) | Placeholder

  /** `getImageUrl`: the thumbnail, else the small thumbnail (an empty link
      counts as missing), with the first `http://` turned into `https://`;
      otherwise the placeholder. */
  function ImageUrl(links: Option<ImageLinks>): Cover {
    if links.Some? && links.value.thumbnail.Some? && links.value.thumbnail.value != "" then
      CoverUrl(Text.ReplaceFirst(links.value.thumbnail.value, "http://", "https://"))
    else if links.Some? && links.value.smallThumbnail.Some? && links.value.smallThumbnail.value != "" then
      CoverUrl(Text.ReplaceFirst(links.value.smallThumbnail.value, "http://", "https://"))
    else Placeholder
  }

  /** A link starting with `http://` is served over `https://`; a link that
      mentions no `http://` is used as it is. */
  lemma UpgradeToHttps(link: string)
    ensures Text.StartsWith(link, "http://") ==> Text.ReplaceFirst(link, "http://", "https://") == "https://" + link[7..]
    ensures !Text.Includes(link, "http://") ==> Text.ReplaceFirst(link, "http://", "https://") == link
  {
    if Text.StartsWith(link, "http://") {
      assert Text.OccursAt(link, "http://", 0);
      assert Text.IndexOf(link, "http://") == Some(0);
    }
  }

  /** The thumbnail is preferred; the small thumbnail is used only without one,
      and the placeholder only without either. */
  lemma ImageUrlChoice(links: Option<ImageLinks>)
    ensures ImageUrl(links).Placeholder? <==>
      links.None? || ((links.value.thumbnail.None? || links.value.thumbnail.value == "")
                      && (links.value.smallThumbnail.None? || links.value.smallThumbnail.value == ""))
    ensures links.Some? && links.value.thumbnail.Some? && links.value.thumbnail.value != "" ==>
      ImageUrl(links) == CoverUrl(Text.ReplaceFirst(links.value.thumbnail.value, "http://", "https://"))
    ensures links.Some? && (links.value.thumbnail.None? || links.value.thumbnail.value == "")
            && links.value.smallThumbnail.Some? && links.value.smallThumbnail.value != "" ==>
      ImageUrl(links) == CoverUrl(Text.ReplaceFirst(links.value.smallThumbnail.value, "http://", "https://"))
    ensures links.Some? && links.value.thumbnail.Some? && Text.StartsWith(links.value.thumbnail.value, "http://") ==>
      ImageUrl(links) == CoverUrl("https://" + links.value.thumbnail.value[7..])
  {
    if links.Some? && links.value.thumbnail.Some? {
      UpgradeToHttps(links.value.thumbnail.value);
    }
  }

  /** The author line: the first two authors joined by `", "`, with ` et al.`
      when there are more; `Unknown Author` when there are none. */
  function AuthorLine(authors: Option<seq<string>>): string {
    if authors.Some? && |authors.value| > 0 then
      var a := authors.value;
      Text.Join(a[..if |a| < 2 then |a| else 2], ", ") + (if |a| > 2 then " et al." else "")
    else UnknownAuthor
  }

  /** The author line case by case. */
  lemma AuthorLineCases(authors: Option<seq<string>>)
    ensures authors.None? || authors.value == [] ==> AuthorLine(authors) == UnknownAuthor
    ensures authors.Some? && |authors.value| == 1 ==> AuthorLine(authors) == authors.value[0]
    ensures authors.Some? && |authors.value| == 2 ==> AuthorLine(authors) == authors.value[0] + ", " + authors.value[1]
    ensures authors.Some? && |authors.value| > 2 ==> AuthorLine(authors) == authors.value[0] + ", " + authors.value[1] + " et al."
  {
    if authors.Some? && |authors.value| >= 2 {
      var a := authors.value;
      assert a[..2][1..] == [a[1]];
      assert Text.Join(a[..2], ", ") == a[0] + ", " + a[1];
    }
  }

  /** A category badge. */
  datatype Badge = Category(name: string) | More(hidden: nat) | Uncategorized

  /** The badges: the first two categories, a `+n` badge for the rest when
      there are more than two, `Uncategorized` when there are none. */
  function CategoryBadges(categories: Option<seq<string>>): seq<Badge> {
    if categories.Some? && |categories.value| > 0 then
      var c := categories.value;
      var shown := c[..if |c| < 2 then |c| else 2];
      seq(|shown|, i requires 0 <= i < |shown| => Category(shown[i]))
        + (if |c| > 2 then [More(|c| - 2)] else [])
    else [Uncategorized]
  }

  /** At most three badges: the first two categories in order, then a `+n`
      badge exactly when more are hidden, which together account for every
      category; `Uncategorized` alone when there are none. */
  lemma CategoryBadgesSpec(categories: Option<seq<string>>)
    ensures var b := CategoryBadges(categories);
      && 1 <= |b| <= 3
      && (categories.None? || categories.value == [] ==> b == [Uncategorized])
      && (categories.Some? && categories.value != [] ==>
            var c := categories.value;
            && |b| == (if |c| < 2 then |c| else 2) + (if |c| > 2 then 1 else 0)
            && (forall i :: 0 <= i < 2 && i < |c| ==> b[i] == Category(c[i]))
            && (|c| > 2 ==> b[2] == More(|c| - 2))
            && (forall i :: 0 <= i < |b| ==> !b[i].Uncategorized?))
  {
  }

  /** The heart button on a card: removes a favourite, otherwise adds the book
      with empty notes and tags. */
  method ToggleFromCard(store: FavoritesRepository, book: Book, now: int, writeOk: bool)
    modifies store
    ensures store.favorites == ToggleUpdate(old(store.favorites), book, now, [], [])
    ensures IsFavorite(store.favorites, book.id) <==> !old(IsFavorite(store.favorites, book.id))
    ensures store.storage == if writeOk then old(store.storage)[StorageKey := store.encode(store.favorites)] else old(store.storage)
  {
    if store.IsFavoriteNow(book.id) {
      store.RemoveFromFavorites(book.id, writeOk);
    } else {
      store.AddToFavorites(book, [], [], now, writeOk);
    }
  }
}
