/** The browser side of the gallery: filtering the media list by a tag, cutting
    it into pages, the pagination bar and its buttons, moving between images in
    the editor, choosing the image to show after a delete, and the editor's own
    auto-tag merge. The page's mutable closure variables are the fields of
    `GalleryView`; the list and page arithmetic are functions. */
module Gallery {
  import opened Wrappers
  import opened JsText
  import opened Tags
  import opened Folder

  /** JavaScript truthiness of a value that is `null` or a string: the empty
      string counts as false. */
  predicate Truthy(s: Option<string>) {
    s.Some? && s.value != []
  }

  // ---------------------------------------------------------------------
  // Filtering

  /** `pieces.map(t => t.trim())`: every piece trimmed, empty ones kept. */
  function TrimEach(pieces: seq<string>): (r: seq<string>)
    ensures |r| == |pieces|
  {
    if pieces == [] then [] else [Trim(pieces[0])] + TrimEach(pieces[1..])
  }

  /** Piece `i` of the mapped list is piece `i` trimmed. */
  lemma {:induction false} TrimEachAt(pieces: seq<string>, i: nat)
    requires i < |pieces|
    ensures TrimEach(pieces)[i] == Trim(pieces[i])
  {
    if i > 0 {
      TrimEachAt(pieces[1..], i - 1);
    }
  }

  /** Whether the gallery shows `item` under the filter: every item when no
      filter is active, otherwise the items whose trimmed comma-separated
      pieces include the filter tag exactly. */
  predicate Shows(filter: Option<string>, item: MediaItem) {
    !Truthy(filter) || filter.value in TrimEach(Split(item.content, ','))
  }

  /** The filtered list of `renderGallery`, in the order of the media list. */
  function FilterItems(items: seq<MediaItem>, filter: Option<string>): (shown: seq<MediaItem>)
    ensures |shown| <= |items|
    ensures forall it :: it in shown <==> it in items && Shows(filter, it)
    ensures !Truthy(filter) ==> shown == items
  {
    if items == [] then []
    else
      assert items == [items[0]] + items[1..];
      ShownEntry(filter, items[0]) + FilterItems(items[1..], filter)
  }

  /** The filtered list's entry for one item: the item when it is shown. */
  function ShownEntry(filter: Option<string>, item: MediaItem): seq<MediaItem> {
    if Shows(filter, item) then [item] else []
  }

  lemma FilterItemsCons(items: seq<MediaItem>, filter: Option<string>)
    requires items != []
    ensures FilterItems(items, filter) == ShownEntry(filter, items[0]) + FilterItems(items[1..], filter)
  {
  }

  /** Filtering keeps the media list's order: the shown items of two stretches
      of the list are those of the first followed by those of the second. */
  lemma FilterItemsAppend(a: seq<MediaItem>, b: seq<MediaItem>, filter: Option<string>)
    ensures FilterItems(a + b, filter) == FilterItems(a, filter) + FilterItems(b, filter)
  {
    var entry := it => ShownEntry(filter, it);
    FilterItemsInOrder(a + b, filter);
    FilterItemsInOrder(a, filter);
    FilterItemsInOrder(b, filter);
    ConcatMapAppend(a, b, entry);
  }

  /** The filtered list is each item's entry, in the media list's order. */
  lemma {:induction false} FilterItemsInOrder(items: seq<MediaItem>, filter: Option<string>)
    ensures FilterItems(items, filter) == ConcatMap(items, it => ShownEntry(filter, it))
  {
    if items != [] {
      FilterItemsInOrder(items[1..], filter);
      FilterItemsCons(items, filter);
    }
  }

  /** The trimmed pieces contain a non-empty tag exactly when the parsed tag
      list does: dropping the empty pieces loses no tag. */
  lemma {:induction false} TrimEachHasTag(pieces: seq<string>, tag: string)
    requires tag != []
    ensures tag in TrimEach(pieces) <==> tag in TrimNonEmpty(pieces)
  {
    if pieces != [] {
      TrimEachHasTag(pieces[1..], tag);
      var t := Trim(pieces[0]);
      assert tag in TrimEach(pieces) <==> tag == t || tag in TrimEach(pieces[1..]);
      assert tag in TrimNonEmpty(pieces) <==> tag == t || tag in TrimNonEmpty(pieces[1..]);
    }
  }

  /** With a filter tag set, an item is shown exactly when its parsed tag list
      contains the tag, so the gallery agrees with the tag counts of the server. */
  lemma ShownIffTagged(items: seq<MediaItem>, tag: string, it: MediaItem)
    requires tag != []
    ensures it in FilterItems(items, Some(tag)) <==> it in items && tag in ParseTags(it.content)
  {
    TrimEachHasTag(Split(it.content, ','), tag);
  }

  /** The file names of a list of items, in order. */
  function Filenames(items: seq<MediaItem>): (names: seq<string>)
    ensures |names| == |items|
    ensures forall i :: 0 <= i < |items| ==> names[i] == items[i].filename
  {
    seq(|items|, i requires 0 <= i < |items| => items[i].filename)
  }

  /** No two items share a file name, as in a directory listing. */
  predicate DistinctNames(items: seq<MediaItem>) {
    forall i, j {:trigger items[i].filename, items[j].filename} :: 0 <= i < j < |items| ==> items[i].filename != items[j].filename
  }

  /** Filtering keeps file names distinct. */
  lemma {:induction false} FilterKeepsDistinct(items: seq<MediaItem>, filter: Option<string>)
    requires DistinctNames(items)
    ensures DistinctNames(FilterItems(items, filter))
  {
    if items != [] {
      var rest := FilterItems(items[1..], filter);
      FilterKeepsDistinct(items[1..], filter);
      HeadNameNotInTail(items);
      FilterItemsCons(items, filter);
      if Shows(filter, items[0]) {
        DistinctCons(items[0], rest);
      } else {
        assert [] + rest == rest;
      }
    }
  }

  /** In a list with distinct names, the first name occurs nowhere after it. */
  lemma HeadNameNotInTail(items: seq<MediaItem>)
    requires items != [] && DistinctNames(items)
    ensures forall it :: it in items[1..] ==> it.filename != items[0].filename
  {
    forall it | it in items[1..]
      ensures it.filename != items[0].filename
    {
      var k :| 0 <= k < |items[1..]| && items[1..][k] == it;
      assert items[k + 1] == it;
    }
  }

  lemma DistinctCons(first: MediaItem, rest: seq<MediaItem>)
    requires DistinctNames(rest)
    requires forall it :: it in rest ==> it.filename != first.filename
    ensures DistinctNames([first] + rest)
  {
    var s := [first] + rest;
    forall i, j | 0 <= i < j < |s|
      ensures s[i].filename != s[j].filename
    {
      assert s[j] == rest[j - 1];
      if i > 0 {
        assert s[i] == rest[i - 1];
      }
    }
  }

  /** `allMediaData.find(m => m.filename === name)`. */
  function FindItem(items: seq<MediaItem>, name: string): (found: Option<MediaItem>)
    ensures found.Some? ==> found.value in items && found.value.filename == name
    ensures found.None? <==> forall it :: it in items ==> it.filename != name
  {
    if items == [] then None
    else if items[0].filename == name then Some(items[0])
    else
      assert items == [items[0]] + items[1..];
      FindItem(items[1..], name)
  }

  /** Every name in the gallery list belongs to an item of the media list. */
  lemma ListedIsFound(items: seq<MediaItem>, filter: Option<string>, name: string)
    requires name in Filenames(FilterItems(items, filter))
    ensures FindItem(items, name).Some?
  {
    var shown := FilterItems(items, filter);
    var k :| 0 <= k < |shown| && Filenames(shown)[k] == name;
    assert shown[k] in items;
  }

  // ---------------------------------------------------------------------
  // Pages

  type Positive = n: nat | n >= 1 witness 1

  /** The "items per page" selector: `'all'` or a page length. */
  datatype PageSize = All | PerPage(n: Positive)

  /** The index `Array.prototype.slice` uses for `i` on a list of length `len`:
      a negative index counts from the end, and both ends are clamped. */
  function SliceIndex(i: int, len: nat): (k: nat)
    ensures k <= len
    ensures 0 <= i <= len ==> k == i
    ensures i > len ==> k == len
  {
    if i < 0 then (if len + i < 0 then 0 else len + i)
    else if i > len then len
    else i
  }

  /** `s.slice(start, end)`. */
  function Slice<T>(s: seq<T>, start: int, end: int): (r: seq<T>)
    ensures 0 <= start <= end ==> |r| <= end - start
    ensures 0 <= start ==> forall i :: 0 <= i < |r| ==> start + i < |s| && r[i] == s[start + i]
    ensures 0 <= start <= end ==> |r| == if start >= |s| then 0 else Min(end, |s|) - start
  {
    var a, b := SliceIndex(start, |s|), SliceIndex(end, |s|);
    if a < b then s[a..b] else []
  }

  function Min(a: int, b: int): int {
    if a <= b then a else b
  }

  /** Where page `page` of length `n` starts: `(page - 1) * n`. */
  function PageOffset(page: int, n: Positive): (start: int)
    ensures page >= 1 ==> start >= 0
  {
    PageStartNonNegative(page, n);
    (page - 1) * n
  }

  /** The items `renderGallery` puts on page `page`: all of them under `'all'`,
      otherwise the slice from `(page - 1) * n` of length `n`. */
  function PageItems<T>(items: seq<T>, size: PageSize, page: int): (r: seq<T>)
    ensures size.All? ==> r == items
    ensures size.PerPage? && page >= 1 ==> |r| <= size.n
    ensures size.PerPage? && page >= 1 ==>
      forall i :: 0 <= i < |r| ==> PageOffset(page, size.n) + i < |items| && r[i] == items[PageOffset(page, size.n) + i]
  {
    if size.All? then items
    else
      var start := PageOffset(page, size.n);
      Slice(items, start, start + size.n)
  }

  /** Page `page` starts `n` items after page `page - 1`, and never before the list. */
  lemma PageStart(page: int, n: Positive)
    ensures page * n == (page - 1) * n + n
    ensures page >= 1 ==> (page - 1) * n >= 0
  {
    PageStartNonNegative(page, n);
  }

  lemma PageStartNonNegative(page: int, n: Positive)
    ensures page >= 1 ==> (page - 1) * n >= 0
  {
  }

  /** Page `k` is the stretch of the list between the ends of pages `k - 1` and `k`. */
  lemma PageItemsRange<T>(items: seq<T>, n: Positive, k: nat)
    requires k >= 1
    ensures PageItems(items, PerPage(n), k) == items[Min((k - 1) * n, |items|)..Min(k * n, |items|)]
  {
    var start := (k - 1) * n;
    PageStart(k, n);
    assert start + n == k * n;
  }

  /** `Math.ceil(len / n)`: the fewest pages of length `n` that hold `len` items. */
  function TotalPages(len: nat, n: Positive): (t: nat)
    ensures len <= t * n
    ensures t == 0 || (t - 1) * n < len
    ensures len > n ==> t >= 2
  {
    var t := (len + n - 1) / n;
    assert len + n - 1 == t * n + (len + n - 1) % n;
    assert (t - 1) * n == t * n - n;
    t
  }

  /** Pages `1..k` laid end to end. */
  function PagesUpTo<T>(items: seq<T>, n: Positive, k: nat): seq<T> {
    if k == 0 then [] else PagesUpTo(items, n, k - 1) + PageItems(items, PerPage(n), k)
  }

  /** The first `k` pages are the first `k * n` items (or all of them). */
  lemma {:induction false} PagesUpToIsPrefix<T>(items: seq<T>, n: Positive, k: nat)
    ensures PagesUpTo(items, n, k) == items[..Min(k * n, |items|)]
  {
    if k > 0 {
      PagesUpToIsPrefix(items, n, k - 1);
      PageItemsRange(items, n, k);
      PageStart(k, n);
      PrefixThenSlice(items, Min((k - 1) * n, |items|), Min(k * n, |items|));
    }
  }

  lemma PrefixThenSlice<T>(s: seq<T>, a: nat, b: nat)
    requires a <= b <= |s|
    ensures s[..a] + s[a..b] == s[..b]
  {
  }

  /** Paging through every page shows every item once, in order. */
  lemma PagesCoverList<T>(items: seq<T>, n: Positive)
    ensures PagesUpTo(items, n, TotalPages(|items|, n)) == items
  {
    var t := TotalPages(|items|, n);
    PagesUpToIsPrefix(items, n, t);
    assert items[..Min(t * n, |items|)] == items;
  }

  /** What `renderPagination` draws below the gallery. */
  datatype Pagination =
    | Hidden
    | Bar(pageCount: nat, current: int, prevDisabled: bool, nextDisabled: bool)

  /** A bar appears only with a page length shorter than the list; it has a
      button per page, Prev is disabled exactly on page 1 and Next exactly on
      the last page. */
  function PaginationView(len: nat, size: PageSize, page: int): (v: Pagination)
    ensures v.Bar? <==> size.PerPage? && len > size.n
    ensures v.Bar? ==> v.pageCount == TotalPages(len, size.n) && v.pageCount >= 2 && v.current == page
    ensures v.Bar? ==> (v.prevDisabled <==> page == 1) && (v.nextDisabled <==> page == v.pageCount)
  {
    if size.All? || len <= size.n then Hidden
    else
      var total := TotalPages(len, size.n);
      if total <= 1 then Hidden
      else Bar(total, page, page == 1, page == total)
  }

  /** A click on a pagination button: Prev, Next or a page number. */
  datatype PageAction = Prev | Next | Goto(page: int)

  /** The page after a click when there are `total` pages: Prev and Next move by
      one and stop at either end, a page button goes to its page. */
  function NavigatePage(current: int, action: PageAction, total: nat): (next: int)
    ensures 1 <= current <= total && (action.Goto? ==> 1 <= action.page <= total) ==> 1 <= next <= total
    ensures action.Prev? ==> current - 1 <= next <= current && (next == current <==> current <= 1)
    ensures action.Next? ==> current <= next <= current + 1 && (next == current <==> current >= total)
    ensures action.Goto? ==> next == action.page
  {
    match action
    case Prev => if current > 1 then current - 1 else current
    case Next => if current < total then current + 1 else current
    case Goto(p) => p
  }

  /** Next then Prev, away from the last page, comes back to the same page. */
  lemma NextThenPrev(current: int, total: nat)
    requires 1 <= current < total
    ensures NavigatePage(NavigatePage(current, Next, total), Prev, total) == current
  {
  }

  /** Prev then Next, away from the first page, comes back to the same page. */
  lemma PrevThenNext(current: int, total: nat)
    requires 1 < current <= total
    ensures NavigatePage(NavigatePage(current, Prev, total), Next, total) == current
  {
  }

  // ---------------------------------------------------------------------
  // Editor navigation

  /** `list.indexOf(x)`: the first position of `x`, or -1. */
  function IndexOf(s: seq<string>, x: string): (i: int)
    ensures -1 <= i < |s|
    ensures i == -1 <==> x !in s
    ensures 0 <= i ==> s[i] == x && x !in s[..i]
  {
    if s == [] then -1
    else if s[0] == x then 0
    else
      var k := IndexOf(s[1..], x);
      assert s == [s[0]] + s[1..];
      if k == -1 then -1
      else
        assert s[..k + 1] == [s[0]] + s[1..][..k];
        k + 1
  }

  /** In a list without repeats, `indexOf` finds each entry at its own position. */
  lemma IndexOfDistinct(s: seq<string>, k: int)
    requires NoDuplicates(s) && 0 <= k < |s|
    ensures IndexOf(s, s[k]) == k
  {
  }

  /** `list[k]`, which is `undefined` outside the list. */
  function At(s: seq<string>, k: int): (r: Option<string>)
    ensures r.Some? <==> 0 <= k < |s|
    ensures r.Some? ==> r.value == s[k]
  {
    if 0 <= k < |s| then Some(s[k]) else None
  }

  /** The image the editor shows after deleting `selected`: none when it was
      the only one, its predecessor when it was last, its successor otherwise. */
  function NextAfterDelete(filenames: seq<string>, selected: string): (next: Option<string>)
    ensures next.None? <==> |filenames| <= 1
    ensures next.Some? ==> next.value in filenames
  {
    var k := IndexOf(filenames, selected);
    if |filenames| > 1 then
      if k == |filenames| - 1 then Some(filenames[k - 1]) else Some(filenames[k + 1])
    else None
  }

  /** Deleting the entry at `k` moves to a neighbour, never to itself. */
  lemma NextAfterDeleteIsNeighbour(filenames: seq<string>, k: int)
    requires NoDuplicates(filenames) && 0 <= k < |filenames| && |filenames| > 1
    ensures NextAfterDelete(filenames, filenames[k])
         == Some(if k == |filenames| - 1 then filenames[k - 1] else filenames[k + 1])
    ensures NextAfterDelete(filenames, filenames[k]).value != filenames[k]
  {
    IndexOfDistinct(filenames, k);
  }

  /** A selection missing from the list falls back to the first entry. */
  lemma NextAfterDeleteUnlisted(filenames: seq<string>, selected: string)
    requires selected !in filenames && |filenames| > 1
    ensures NextAfterDelete(filenames, selected) == Some(filenames[0])
  {
  }

  // ---------------------------------------------------------------------
  // The editor's auto-tag merge

  /** The textarea after auto-tagging: its tags merged with the generated ones
      in the chosen mode (no custom tag), deduplicated and joined with ", ". */
  function EditorMerged(text: string, generated: string, mode: Mode): (r: string)
    ensures ParseTags(r) == Merged(ParseTags(text), ParseTags(generated), None, mode)
    ensures NoDuplicates(ParseTags(r))
    ensures forall t :: t in ParseTags(r) <==>
      t in ParseTags(generated) || (mode != Replace && t in ParseTags(text))
  {
    MergedRoundTrip(ParseTags(text), ParseTags(generated), None, mode);
    SerializeTags(Merged(ParseTags(text), ParseTags(generated), None, mode))
  }

  /** Auto-tagging twice with the same answer leaves the text of the first time. */
  lemma EditorMergedTwice(text: string, generated: string, mode: Mode)
    ensures EditorMerged(EditorMerged(text, generated, mode), generated, mode) == EditorMerged(text, generated, mode)
  {
    var e, g := ParseTags(text), ParseTags(generated);
    var once := ParseTags(EditorMerged(text, generated, mode));
    assert once == Merged(e, g, None, mode);
    MergedTwice(e, g, mode);
  }

  /** The same fact on tag lists: the merge, merged again with the same
      generated tags, is unchanged. */
  lemma MergedTwice(e: seq<string>, g: seq<string>, mode: Mode)
    ensures Merged(Merged(e, g, None, mode), g, None, mode) == Merged(e, g, None, mode)
  {
    match mode
    case Append => AppendTwice(e, g);
    case Prepend => PrependTwice(e, g);
    case Replace =>
      assert MergeOrder(Merged(e, g, None, Replace), g, None, Replace) == MergeOrder(e, g, None, Replace);
  }

  lemma AppendTwice(e: seq<string>, g: seq<string>)
    ensures Merged(Merged(e, g, None, Append), g, None, Append) == Merged(e, g, None, Append)
  {
    assert MergeOrder(e, g, None, Append) == e + g;
    assert MergeOrder(Dedup(e + g), g, None, Append) == Dedup(e + g) + g;
    DedupAfterDedup(e + g, g);
    DedupAppend(e + g, g);
    WithoutCovered(g, e + g);
    assert (e + g) + g == e + g + g;
  }

  lemma PrependTwice(e: seq<string>, g: seq<string>)
    ensures Merged(Merged(e, g, None, Prepend), g, None, Prepend) == Merged(e, g, None, Prepend)
  {
    var once := Dedup(g + e);
    assert MergeOrder(e, g, None, Prepend) == g + e;
    assert MergeOrder(once, g, None, Prepend) == g + once;
    DedupAppend(g, e);
    DedupRepeatedPrefix(g, Dedup(Without(e, g)));
  }

  /** The handler's merge: parse both lists, fill a `Set` in the mode's order
      and join it back into text. */
  method MergeEditorText(text: string, answer: string, mode: string) returns (merged: string)
    ensures merged == EditorMerged(text, answer, ModeOf(Some(mode)))
  {
    var existingTags := ParseTags(text);
    var newTags := ParseTags(answer);
    var finalTags := MergeTags(existingTags, newTags, None, ModeOf(Some(mode)));
    merged := SerializeTags(finalTags);
  }

  /** The auto-tag button's effect on the editor text: the merge when an image
      is selected and the tagger answered, the text unchanged otherwise. */
  method AutoTagText(selected: Option<string>, text: string, answer: Option<string>, mode: string)
    returns (r: string)
    ensures Truthy(selected) && answer.Some? ==> r == EditorMerged(text, answer.value, ModeOf(Some(mode)))
    ensures !Truthy(selected) || answer.None? ==> r == text
  {
    if !Truthy(selected) || answer.None? {
      return text;
    }
    r := MergeEditorText(text, answer.value, mode);
  }

  // ---------------------------------------------------------------------
  // The page state

  /** The gallery page's state: the media list and tag filter last fetched and
      chosen, the page length and current page, the file names of the filtered
      list, and the editor's selection, index and text. */
  class GalleryView {
    var media: seq<MediaItem>
    var filter: Option<string>
    var perPage: PageSize
    var currentPage: int
    var filenames: seq<string>
    var selected: Option<string>
    var editorIndex: int
    var editorOpen: bool
    var textarea: string

    ghost predicate Valid()
      reads this`media, this`filter, this`filenames, this`currentPage, this`editorIndex
    {
      DistinctNames(media) && filenames == Filenames(FilterItems(media, filter)) &&
      NoDuplicates(filenames) && currentPage >= 1 && editorIndex >= -1
    }

    constructor (size: PageSize)
      ensures Valid()
      ensures media == [] && filter == None && perPage == size && currentPage == 1
      ensures filenames == [] && selected == None && editorIndex == -1 && !editorOpen && textarea == []
    {
      media, filter, perPage, currentPage := [], None, size, 1;
      filenames, selected, editorIndex := [], None, -1;
      editorOpen, textarea := false, [];
    }

    /** `renderGallery`: recompute the filtered file names and return the items
        of the current page and the pagination bar. */
    method Render() returns (page: seq<MediaItem>, bar: Pagination)
      requires DistinctNames(media) && currentPage >= 1 && editorIndex >= -1
      modifies this
      ensures Valid()
      ensures filenames == Filenames(FilterItems(media, filter))
      ensures page == PageItems(FilterItems(media, filter), perPage, currentPage)
      ensures bar == PaginationView(|filenames|, perPage, currentPage)
      ensures media == old(media) && filter == old(filter) && perPage == old(perPage)
      ensures currentPage == old(currentPage) && selected == old(selected) && editorIndex == old(editorIndex)
      ensures editorOpen == old(editorOpen) && textarea == old(textarea)
    {
      var shown := FilterItems(media, filter);
      FilterKeepsDistinct(media, filter);
      filenames := Filenames(shown);
      page := PageItems(shown, perPage, currentPage);
      bar := PaginationView(|filenames|, perPage, currentPage);
    }

    /** `reloadAllData`: take a freshly fetched media list and render it. */
    method Reload(listing: seq<MediaItem>) returns (page: seq<MediaItem>, bar: Pagination)
      requires Valid() && DistinctNames(listing)
      modifies this
      ensures Valid() && media == listing
      ensures filenames == Filenames(FilterItems(listing, filter))
      ensures page == PageItems(FilterItems(listing, filter), perPage, currentPage)
      ensures bar == PaginationView(|filenames|, perPage, currentPage)
      ensures filter == old(filter) && perPage == old(perPage) && currentPage == old(currentPage)
      ensures selected == old(selected) && editorIndex == old(editorIndex)
      ensures editorOpen == old(editorOpen) && textarea == old(textarea)
    {
      media := listing;
      page, bar := Render();
    }

    /** A click on a tag in the sidebar: filter by it and go back to page 1. */
    method SelectFilter(tag: string) returns (page: seq<MediaItem>, bar: Pagination)
      requires Valid()
      modifies this
      ensures Valid() && filter == Some(tag) && currentPage == 1
      ensures page == PageItems(FilterItems(media, Some(tag)), perPage, 1)
      ensures bar == PaginationView(|filenames|, perPage, 1)
      ensures media == old(media) && perPage == old(perPage)
      ensures selected == old(selected) && editorIndex == old(editorIndex)
      ensures editorOpen == old(editorOpen) && textarea == old(textarea)
    {
      filter, currentPage := Some(tag), 1;
      page, bar := Render();
    }

    /** The clear-filter button: show everything from page 1. */
    method ClearFilter() returns (page: seq<MediaItem>, bar: Pagination)
      requires Valid()
      modifies this
      ensures Valid() && filter == None && currentPage == 1
      ensures filenames == Filenames(media)
      ensures page == PageItems(media, perPage, 1)
      ensures media == old(media) && perPage == old(perPage)
      ensures selected == old(selected) && editorIndex == old(editorIndex)
      ensures editorOpen == old(editorOpen) && textarea == old(textarea)
    {
      filter, currentPage := None, 1;
      page, bar := Render();
    }

    /** The items-per-page selector: a new page length, from page 1. */
    method SetPageSize(size: PageSize) returns (page: seq<MediaItem>, bar: Pagination)
      requires Valid()
      modifies this
      ensures Valid() && perPage == size && currentPage == 1
      ensures page == PageItems(FilterItems(media, filter), size, 1)
      ensures bar == PaginationView(|filenames|, size, 1)
      ensures media == old(media) && filter == old(filter) && filenames == old(filenames)
      ensures selected == old(selected) && editorIndex == old(editorIndex)
      ensures editorOpen == old(editorOpen) && textarea == old(textarea)
    {
      perPage, currentPage := size, 1;
      page, bar := Render();
    }

    /** A click on a pagination button. Buttons exist only while the bar is
        drawn, and the numbered ones run from 1 to the page count. */
    method ClickPage(action: PageAction) returns (page: seq<MediaItem>, bar: Pagination)
      requires Valid() && perPage.PerPage? && |filenames| > perPage.n
      requires action.Goto? ==> 1 <= action.page <= TotalPages(|filenames|, perPage.n)
      modifies this
      ensures Valid() && perPage == old(perPage)
      ensures currentPage == NavigatePage(old(currentPage), action, TotalPages(|filenames|, perPage.n))
      ensures old(currentPage) <= TotalPages(|filenames|, perPage.n) ==>
        currentPage <= TotalPages(|filenames|, perPage.n)
      ensures page == PageItems(FilterItems(media, filter), perPage, currentPage)
      ensures bar == PaginationView(|filenames|, perPage, currentPage)
      ensures media == old(media) && filter == old(filter) && perPage == old(perPage) && filenames == old(filenames)
      ensures selected == old(selected) && editorIndex == old(editorIndex)
      ensures editorOpen == old(editorOpen) && textarea == old(textarea)
    {
      var total := TotalPages(|filenames|, perPage.n);
      currentPage := NavigatePage(currentPage, action, total);
      page, bar := Render();
    }

    /** The editor state `showEditor(name)` leaves: `name` selected at its
        index in the gallery list, and, when it is listed, the editor open on
        its item's text; otherwise the editor as it was (`wasOpen`, `text`). */
    ghost predicate Showing(name: Option<string>, wasOpen: bool, text: string)
      reads this
    {
      && selected == name
      && editorIndex == (if name.Some? then IndexOf(filenames, name.value) else -1)
      && (editorIndex >= 0 ==>
            editorOpen && FindItem(media, name.value).Some? && textarea == FindItem(media, name.value).value.content)
      && (editorIndex < 0 ==> editorOpen == wasOpen && textarea == text)
    }

    /** `showEditor(name)`: select `name` and find it in the gallery list; when
        it is listed and its item is known, open the editor on its text. */
    method ShowEditor(name: Option<string>)
      requires Valid()
      modifies this
      ensures Valid() && Showing(name, old(editorOpen), old(textarea))
      ensures media == old(media) && filter == old(filter) && perPage == old(perPage)
      ensures currentPage == old(currentPage) && filenames == old(filenames)
    {
      var index := if name.Some? then IndexOf(filenames, name.value) else -1;
      var open, text := editorOpen, textarea;
      if index != -1 {
        ListedIsFound(media, filter, name.value);
        var item := FindItem(media, name.value);
        if item.Some? {
          open, text := true, item.value.content;
        }
      }
      selected, editorIndex, editorOpen, textarea := name, index, open, text;
    }

    /** `showGallery`: close the editor and clear the selection. */
    method ShowGallery()
      requires Valid()
      modifies this
      ensures Valid() && !editorOpen && selected == None && editorIndex == -1
      ensures media == old(media) && filter == old(filter) && perPage == old(perPage)
      ensures currentPage == old(currentPage) && filenames == old(filenames) && textarea == old(textarea)
    {
      editorOpen, selected, editorIndex := false, None, -1;
    }

    /** The previous-image button: step back one place, never past the start. */
    method PrevImage()
      requires Valid()
      modifies this
      ensures Valid()
      ensures old(editorIndex) <= 0 ==> unchanged(this)
      ensures old(editorIndex) > 0 ==> Showing(At(filenames, old(editorIndex) - 1), old(editorOpen), old(textarea))
      ensures 0 < old(editorIndex) <= |filenames| ==>
        selected == Some(filenames[old(editorIndex) - 1]) && editorIndex == old(editorIndex) - 1 && editorOpen
      ensures old(editorIndex) > |filenames| ==> selected == None && editorIndex == -1
      ensures media == old(media) && filter == old(filter) && perPage == old(perPage)
      ensures currentPage == old(currentPage) && filenames == old(filenames)
    {
      if editorIndex > 0 {
        var target := At(filenames, editorIndex - 1);
        if target.Some? {
          IndexOfDistinct(filenames, editorIndex - 1);
        }
        ShowEditor(target);
      }
    }

    /** The next-image button: step forward one place, never past the end. */
    method NextImage()
      requires Valid()
      modifies this
      ensures Valid()
      ensures old(editorIndex) >= |filenames| - 1 ==> unchanged(this)
      ensures old(editorIndex) < |filenames| - 1 ==>
        Showing(Some(filenames[old(editorIndex) + 1]), old(editorOpen), old(textarea)) &&
        editorIndex == old(editorIndex) + 1 && editorOpen
      ensures media == old(media) && filter == old(filter) && perPage == old(perPage)
      ensures currentPage == old(currentPage) && filenames == old(filenames)
    {
      if editorIndex < |filenames| - 1 {
        IndexOfDistinct(filenames, editorIndex + 1);
        ShowEditor(At(filenames, editorIndex + 1));
      }
    }

    /** The delete button: pick the image to show next from the list as it was,
        and once the user confirms, take the media list fetched after the
        server deleted the file, then open that image or go back to the gallery. */
    method DeleteSelected(confirmed: bool, listing: seq<MediaItem>)
      requires Valid() && DistinctNames(listing)
      modifies this
      ensures Valid()
      ensures !Truthy(old(selected)) || !confirmed ==> unchanged(this)
      ensures Truthy(old(selected)) && confirmed ==>
        var next := NextAfterDelete(old(filenames), old(selected).value);
        media == listing && filenames == Filenames(FilterItems(listing, filter)) &&
        (Truthy(next) ==> Showing(next, old(editorOpen), old(textarea))) &&
        (!Truthy(next) ==> selected == None && editorIndex == -1 && !editorOpen && textarea == old(textarea))
      ensures filter == old(filter) && perPage == old(perPage) && currentPage == old(currentPage)
    {
      if !Truthy(selected) {
        return;
      }
      var next := NextAfterDelete(filenames, selected.value);
      if confirmed {
        var _, _ := Reload(listing);
        if Truthy(next) {
          ShowEditor(next);
        } else {
          ShowGallery();
        }
      }
    }

    /** The editor's auto-tag button: with an image selected and the tagger's
        answer in hand (`None` when the request failed), merge the answer into
        the textarea in the chosen mode. */
    method AutoTag(answer: Option<string>, mode: string)
      requires Valid()
      modifies this
      ensures Valid()
      ensures !Truthy(selected) || answer.None? ==> textarea == old(textarea)
      ensures Truthy(selected) && answer.Some? ==>
        textarea == EditorMerged(old(textarea), answer.value, ModeOf(Some(mode)))
      ensures media == old(media) && filter == old(filter) && perPage == old(perPage)
      ensures currentPage == old(currentPage) && filenames == old(filenames)
      ensures selected == old(selected) && editorIndex == old(editorIndex) && editorOpen == old(editorOpen)
    {
      textarea := AutoTagText(selected, textarea, answer, mode);
    }
  }
}
