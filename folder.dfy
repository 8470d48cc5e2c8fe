/** The media directory as the server sees it: directory entries in listing
    order and the text of each file. Holds the scans over sidecars (deleting a
    tag everywhere, counting tags) and the media listing. */
module Folder {
  import opened JsText
  import opened Tags
  import opened Paths

  /** One entry of `GET /api/media`: an image and its trimmed sidecar text. */
  datatype MediaItem = MediaItem(filename: string, content: string)

  /** One entry of `GET /api/tags`. */
  datatype TagCount = TagCount(name: string, count: nat)

  /** The sidecar text of an image; a missing sidecar reads as empty. */
  function SidecarText(files: map<string, string>, imageFile: string): string {
    var sidecar := SidecarName(imageFile);
    if sidecar in files then files[sidecar] else ""
  }

  /** `GET /api/media`: the image entries in listing order, each with its
      trimmed sidecar text. */
  function MediaItems(names: seq<string>, files: map<string, string>): (items: seq<MediaItem>)
    ensures |items| <= |names|
    ensures forall it :: it in items ==> it.filename in names && IsImageName(it.filename)
    ensures forall it :: it in items ==> it.content == Trim(SidecarText(files, it.filename))
    ensures forall f :: f in names && IsImageName(f) ==> MediaItem(f, Trim(SidecarText(files, f))) in items
  {
    if names == [] then []
    else
      var f := names[0];
      assert forall g :: g in names <==> g == f || g in names[1..];
      MediaEntry(f, files) + MediaItems(names[1..], files)
  }

  /** The media list's entry for one directory entry: the image with its
      trimmed sidecar text, or nothing for any other file. */
  function MediaEntry(f: string, files: map<string, string>): seq<MediaItem> {
    if IsImageName(f) then [MediaItem(f, Trim(SidecarText(files, f)))] else []
  }

  lemma MediaItemsCons(names: seq<string>, files: map<string, string>)
    requires names != []
    ensures MediaItems(names, files) == MediaEntry(names[0], files) + MediaItems(names[1..], files)
  {
  }

  /** The media list keeps the listing's order: the items of two stretches of
      the listing are those of the first followed by those of the second. */
  lemma MediaItemsAppend(a: seq<string>, b: seq<string>, files: map<string, string>)
    ensures MediaItems(a + b, files) == MediaItems(a, files) + MediaItems(b, files)
  {
    var entry := f => MediaEntry(f, files);
    MediaItemsInOrder(a + b, files);
    MediaItemsInOrder(a, files);
    MediaItemsInOrder(b, files);
    ConcatMapAppend(a, b, entry);
  }

  /** The media list is the listing's entries laid end to end. */
  lemma {:induction false} MediaItemsInOrder(names: seq<string>, files: map<string, string>)
    ensures MediaItems(names, files) == ConcatMap(names, f => MediaEntry(f, files))
  {
    if names != [] {
      MediaItemsInOrder(names[1..], files);
      MediaItemsCons(names, files);
    }
  }

  /** `f` applied to every element of `s`, the results laid end to end. */
  function ConcatMap<T, U>(s: seq<T>, f: T -> seq<U>): seq<U> {
    if s == [] then [] else f(s[0]) + ConcatMap(s[1..], f)
  }

  lemma {:induction false} ConcatMapAppend<T, U>(a: seq<T>, b: seq<T>, f: T -> seq<U>)
    ensures ConcatMap(a + b, f) == ConcatMap(a, f) + ConcatMap(b, f)
  {
    if a == [] {
      assert a + b == b;
    } else {
      assert (a + b)[0] == a[0] && (a + b)[1..] == a[1..] + b;
      ConcatMapAppend(a[1..], b, f);
    }
  }

  /** Each entry occurs once; stated from the end, the way a listing grows. */
  predicate ListedOnce(s: seq<string>) {
    s == [] || (s[|s| - 1] !in s[..|s| - 1] && ListedOnce(s[..|s| - 1]))
  }

  lemma {:induction false} NotInPrefix(s: seq<string>, i: nat)
    requires ListedOnce(s) && i < |s|
    ensures s[i] !in s[..i]
  {
    if i < |s| - 1 {
      var t := s[..|s| - 1];
      assert t[i] == s[i] && t[..i] == s[..i];
      NotInPrefix(t, i);
    }
  }

  lemma UpdateSame(m: map<string, string>, k: string)
    requires k in m
    ensures m[k := m[k]] == m
  {
  }

  lemma TakeOneMore(s: seq<string>, i: nat)
    requires i < |s|
    ensures s[..i + 1] == s[..i] + [s[i]]
  {
  }

  /** The listing form and the pairwise form of distinctness agree. */
  lemma {:induction false} ListedOnceIsNoDuplicates(s: seq<string>)
    ensures ListedOnce(s) <==> NoDuplicates(s)
  {
    if s != [] {
      var t := s[..|s| - 1];
      ListedOnceIsNoDuplicates(t);
      if ListedOnce(s) {
        forall i, j | 0 <= i < j < |s|
          ensures s[i] != s[j]
        {
          if j == |s| - 1 {
            assert s[i] == t[i];
          } else {
            assert s[i] == t[i] && s[j] == t[j];
          }
        }
      }
      if NoDuplicates(s) {
        assert NoDuplicates(t) by {
          forall i, j | 0 <= i < j < |t|
            ensures t[i] != t[j]
          {
            assert t[i] == s[i] && t[j] == s[j];
          }
        }
        assert s[|s| - 1] !in t by {
          forall i | 0 <= i < |t|
            ensures t[i] != s[|s| - 1]
          {
            assert t[i] == s[i];
          }
        }
      }
    }
  }

  /** How many `.txt` files among `names` have `tag` among their parsed tags. */
  function FilesWithTag(names: seq<string>, files: map<string, string>, tag: string): nat {
    if names == [] then 0
    else
      var last := names[|names| - 1];
      FilesWithTag(names[..|names| - 1], files, tag)
        + (if last in files && IsTextFile(last) && tag in ParseTags(files[last]) then 1 else 0)
  }

  lemma FilesWithTagStep(names: seq<string>, files: map<string, string>, i: nat, tag: string)
    requires i < |names|
    ensures FilesWithTag(names[..i + 1], files, tag) == FilesWithTag(names[..i], files, tag)
      + (if names[i] in files && IsTextFile(names[i]) && tag in ParseTags(files[names[i]]) then 1 else 0)
  {
    assert names[..i + 1][..i] == names[..i];
  }

  function TagNames(counts: seq<TagCount>): (r: seq<string>)
    ensures |r| == |counts| && forall i :: 0 <= i < |counts| ==> r[i] == counts[i].name
  {
    seq(|counts|, i requires 0 <= i < |counts| => counts[i].name)
  }

  /** `Array.from(tagCounts, ([name, count]) => ({ name, count }))`: the tally
      as a list, in its insertion order. */
  function CountsInOrder(order: seq<string>, tally: map<string, nat>): (counts: seq<TagCount>)
    requires forall t :: t in order ==> t in tally
    ensures TagNames(counts) == order
    ensures forall c :: c in counts ==> c.name in tally && c.count == tally[c.name]
  {
    var counts := seq(|order|, j requires 0 <= j < |order| => TagCount(order[j], tally[order[j]]));
    assert TagNames(counts) == order;
    counts
  }

  /** The files after the delete scan has visited the entries of `scanned`
      in order: a visited `.txt` file gets its text without the tag. */
  function WithTagDeleted(files: map<string, string>, scanned: seq<string>, tag: string): (r: map<string, string>)
    ensures r.Keys == files.Keys
  {
    if scanned == [] then files
    else
      var before := WithTagDeleted(files, scanned[..|scanned| - 1], tag);
      var f := scanned[|scanned| - 1];
      if f in before && IsTextFile(f) then before[f := ContentWithoutTag(before[f], tag)] else before
  }

  /** Deleting a tag a second time changes nothing. */
  lemma ContentWithoutTagTwice(content: string, tag: string)
    ensures ContentWithoutTag(ContentWithoutTag(content, tag), tag) == ContentWithoutTag(content, tag)
  {
    ContentWithoutTagParses(content, tag);
  }

  /** Whatever the order of the listing, and however often an entry occurs
      in it, a visited `.txt` file ends up as its former text without the tag
      and every other file keeps its text. */
  lemma WithTagDeletedAt(files: map<string, string>, scanned: seq<string>, tag: string, g: string)
    requires g in files
    ensures WithTagDeleted(files, scanned, tag)[g] ==
      if g in scanned && IsTextFile(g) then ContentWithoutTag(files[g], tag) else files[g]
  {
    if g in scanned && IsTextFile(g) {
      WithTagDeletedVisited(files, scanned, tag, g);
    } else {
      WithTagDeletedUnvisited(files, scanned, tag, g);
    }
  }

  /** A file the scan never rewrote keeps its text. */
  lemma {:induction false} WithTagDeletedUnvisited(files: map<string, string>, scanned: seq<string>, tag: string, g: string)
    requires g in files && !(g in scanned && IsTextFile(g))
    ensures WithTagDeleted(files, scanned, tag)[g] == files[g]
  {
    if scanned != [] {
      var visited := scanned[..|scanned| - 1];
      assert g in visited ==> g in scanned;
      WithTagDeletedUnvisited(files, visited, tag, g);
      WithTagDeletedLast(files, scanned, tag, g);
    }
  }

  /** A visited `.txt` file ends as its original text without the tag, however
      often the listing names it. */
  lemma {:induction false} WithTagDeletedVisited(files: map<string, string>, scanned: seq<string>, tag: string, g: string)
    requires g in files && g in scanned && IsTextFile(g)
    ensures WithTagDeleted(files, scanned, tag)[g] == ContentWithoutTag(files[g], tag)
  {
    var visited, f := scanned[..|scanned| - 1], scanned[|scanned| - 1];
    assert scanned == visited + [f];
    WithTagDeletedLast(files, scanned, tag, g);
    if g != f {
      WithTagDeletedVisited(files, visited, tag, g);
    } else if g in visited {
      WithTagDeletedVisited(files, visited, tag, g);
      ContentWithoutTagTwice(files[g], tag);
    } else {
      WithTagDeletedUnvisited(files, visited, tag, g);
    }
  }

  /** What the last visited entry does to the text of `g`. */
  lemma WithTagDeletedLast(files: map<string, string>, scanned: seq<string>, tag: string, g: string)
    requires g in files && scanned != []
    ensures var before := WithTagDeleted(files, scanned[..|scanned| - 1], tag);
      WithTagDeleted(files, scanned, tag)[g] ==
        if g == scanned[|scanned| - 1] && IsTextFile(g) then ContentWithoutTag(before[g], tag) else before[g]
  {
  }

  /** A file changes only when it is a visited `.txt` file one of whose
      tokens matches the tag. */
  lemma WithTagDeletedOnlyMatches(files: map<string, string>, scanned: seq<string>, tag: string, f: string)
    requires f in files && WithTagDeleted(files, scanned, tag)[f] != files[f]
    ensures f in scanned && IsTextFile(f) && ContainsIgnoringCase(ParseTags(files[f]), tag)
  {
    WithTagDeletedAt(files, scanned, tag, f);
  }

  /** After the scan, every visited sidecar holds its former tags minus every
      token equal to `tag` ignoring case, in their former order, and no such
      token is left. */
  lemma WithTagDeletedParses(files: map<string, string>, scanned: seq<string>, tag: string, f: string)
    requires f in files && f in scanned && IsTextFile(f)
    ensures ParseTags(WithTagDeleted(files, scanned, tag)[f]) == RemoveIgnoringCase(ParseTags(files[f]), tag)
    ensures !ContainsIgnoringCase(ParseTags(WithTagDeleted(files, scanned, tag)[f]), tag)
  {
    WithTagDeletedAt(files, scanned, tag, f);
    ContentWithoutTagParses(files[f], tag);
  }

  /** Visiting one more entry. */
  lemma WithTagDeletedSnoc(files: map<string, string>, names: seq<string>, i: nat, tag: string)
    requires i < |names|
    ensures var before := WithTagDeleted(files, names[..i], tag);
      WithTagDeleted(files, names[..i + 1], tag) ==
        if names[i] in before && IsTextFile(names[i]) then before[names[i] := ContentWithoutTag(before[names[i]], tag)] else before
  {
    assert names[..i + 1][..i] == names[..i];
  }

  /** Once a tag is deleted everywhere, no listed file counts as holding it,
      nor any spelling of it that differs only in case. */
  lemma {:induction false} DeletedTagNotCounted(prefix: seq<string>, files: map<string, string>, scanned: seq<string>,
                                                tag: string, t: string)
    requires forall f :: f in prefix ==> f in scanned
    requires EqualsIgnoreCase(t, tag)
    ensures FilesWithTag(prefix, WithTagDeleted(files, scanned, tag), t) == 0
  {
    if prefix != [] {
      var after := WithTagDeleted(files, scanned, tag);
      var last := prefix[|prefix| - 1];
      DeletedTagNotCounted(prefix[..|prefix| - 1], files, scanned, tag, t);
      if last in after && IsTextFile(last) {
        WithTagDeletedParses(files, scanned, tag, last);
        assert t !in ParseTags(after[last]);
      }
    }
  }

  /** An insertion-ordered tally (`order` lists the keys of `counts` in the
      order they were added) holding, for each tag, the number of files among
      `names` whose tags contain it, and nothing else. */
  ghost predicate Tallied(counts: map<string, nat>, order: seq<string>, names: seq<string>, files: map<string, string>) {
    && ListedOnce(order)
    && (forall t :: t in order <==> t in counts)
    && (forall t :: t in counts <==> FilesWithTag(names, files, t) > 0)
    && (forall t :: t in counts ==> counts[t] == FilesWithTag(names, files, t))
  }

  /** `counts` is `before` with each of `tags` counted once more. */
  ghost predicate CountedOnceMore(before: map<string, nat>, counts: map<string, nat>, tags: seq<string>) {
    && (forall t :: t in counts <==> t in before || t in tags)
    && (forall t :: t in counts ==> counts[t] == (if t in before then before[t] else 0) + (if t in tags then 1 else 0))
  }

  /** `new Set(tags)` for the tags of one sidecar: each parsed tag once, in
      the order first met. */
  method DistinctTags(content: string) returns (tags: seq<string>)
    ensures ListedOnce(tags)
    ensures forall t :: t in tags <==> t in ParseTags(content)
    ensures tags == Dedup(ParseTags(content))
  {
    var unique := new TagSet();
    unique.AddAll(ParseTags(content));
    tags := unique.items;
    assert [] + ParseTags(content) == ParseTags(content);
    ListedOnceIsNoDuplicates(tags);
  }

  /** `tags.forEach(tag => tagCounts.set(tag, (tagCounts.get(tag) || 0) + 1))`
      on the insertion-ordered tally (`counts`, `order`): the tags not yet keys
      join the key order at the end, in the order they come. */
  method Tally(counts0: map<string, nat>, order0: seq<string>, tags: seq<string>)
    returns (counts: map<string, nat>, order: seq<string>)
    requires ListedOnce(tags) && ListedOnce(order0) && forall t :: t in order0 <==> t in counts0
    ensures ListedOnce(order) && forall t :: t in order <==> t in counts
    ensures CountedOnceMore(counts0, counts, tags)
    ensures order == order0 + Without(tags, order0)
  {
    counts, order := counts0, order0;
    assert tags[..0] == [] && order0 + [] == order0;
    for k := 0 to |tags|
      invariant ListedOnce(order) && forall t :: t in order <==> t in counts
      invariant CountedOnceMore(counts0, counts, tags[..k])
      invariant order == order0 + Without(tags[..k], order0)
    {
      NotInPrefix(tags, k);
      CountedStep(counts0, counts, tags, k);
      KeyedIffListed(counts0, counts, order0, tags, k);
      NewKeyStep(order0, order, tags, k, tags[k] in counts);
      counts, order := TallyTag(counts, order, tags[k]);
    }
    assert tags[..|tags|] == tags;
  }

  /** `tagCounts.set(tag, (tagCounts.get(tag) || 0) + 1)`: the count goes up by
      one, and a new key is added at the end of the key order. */
  method TallyTag(counts0: map<string, nat>, order0: seq<string>, t: string)
    returns (counts: map<string, nat>, order: seq<string>)
    requires ListedOnce(order0) && forall u :: u in order0 <==> u in counts0
    ensures ListedOnce(order) && forall u :: u in order <==> u in counts
    ensures counts == counts0[t := (if t in counts0 then counts0[t] else 0) + 1]
    ensures order == if t in counts0 then order0 else order0 + [t]
  {
    var previous := if t in counts0 then counts0[t] else 0;
    order := order0;
    if t !in counts0 {
      assert (order0 + [t])[..|order0|] == order0;
      order := order0 + [t];
    }
    counts := counts0[t := previous + 1];
  }

  /** Counting one tag more of a file whose tags are distinct. */
  lemma CountedStep(counts0: map<string, nat>, counts: map<string, nat>, tags: seq<string>, k: nat)
    requires k < |tags| && tags[k] !in tags[..k]
    requires CountedOnceMore(counts0, counts, tags[..k])
    ensures CountedOnceMore(counts0, counts[tags[k] := (if tags[k] in counts then counts[tags[k]] else 0) + 1], tags[..k + 1])
  {
    TakeOneMore(tags, k);
  }

  /** A tag not met before in this file is a key exactly when it was one before the file. */
  lemma KeyedIffListed(counts0: map<string, nat>, counts: map<string, nat>, order0: seq<string>, tags: seq<string>, k: nat)
    requires k < |tags| && tags[k] !in tags[..k]
    requires CountedOnceMore(counts0, counts, tags[..k])
    requires forall t :: t in order0 <==> t in counts0
    ensures tags[k] in counts <==> tags[k] in order0
  {
  }

  /** The key order after one tag more: the tag joins the end unless it was a key before. */
  lemma NewKeyStep(order0: seq<string>, order: seq<string>, tags: seq<string>, k: nat, isKey: bool)
    requires k < |tags|
    requires order == order0 + Without(tags[..k], order0)
    requires isKey <==> tags[k] in order0
    ensures (if isKey then order else order + [tags[k]]) == order0 + Without(tags[..k + 1], order0)
  {
    KeyOrderStep(tags, k, order0);
  }

  lemma KeyOrderStep(tags: seq<string>, k: nat, order0: seq<string>)
    requires k < |tags|
    ensures Without(tags[..k + 1], order0)
         == Without(tags[..k], order0) + (if tags[k] in order0 then [] else [tags[k]])
  {
    assert tags[..k + 1] == tags[..k] + [tags[k]];
    WithoutAppend(tags[..k], [tags[k]], order0);
    WithoutCons(tags[k], [], order0);
    assert [tags[k]] + [] == [tags[k]];
  }

  /** Every tag of the `.txt` files among `names`, file after file, each file's
      tags in their written order. */
  function TagsMet(names: seq<string>, files: map<string, string>): seq<string> {
    if names == [] then []
    else
      var last := names[|names| - 1];
      TagsMet(names[..|names| - 1], files) + (if last in files && IsTextFile(last) then ParseTags(files[last]) else [])
  }

  /** The key order after one file more of the count is the order in which its
      tags were first met. */
  lemma KeyOrderAfterFile(order0: seq<string>, order: seq<string>, names: seq<string>, files: map<string, string>,
                          i: nat, tags: seq<string>)
    requires i < |names| && names[i] in files
    requires order0 == Dedup(TagsMet(names[..i], files))
    requires IsTextFile(names[i]) ==>
      tags == Dedup(ParseTags(files[names[i]])) && order == order0 + Without(tags, order0)
    requires !IsTextFile(names[i]) ==> order == order0
    ensures order == Dedup(TagsMet(names[..i + 1], files))
  {
    var met := TagsMet(names[..i], files);
    TagsMetStep(names, files, i);
    if IsTextFile(names[i]) {
      DedupExtend(met, ParseTags(files[names[i]]));
    } else {
      assert met + [] == met;
    }
  }

  lemma TagsMetStep(names: seq<string>, files: map<string, string>, i: nat)
    requires i < |names|
    ensures TagsMet(names[..i + 1], files) == TagsMet(names[..i], files)
      + (if names[i] in files && IsTextFile(names[i]) then ParseTags(files[names[i]]) else [])
  {
    assert names[..i + 1][..i] == names[..i];
  }

  /** One file more in the tag count: a `.txt` file adds one to each of its
      distinct tags, any other entry adds nothing. */
  lemma TalliedStep(counts0: map<string, nat>, order0: seq<string>, counts: map<string, nat>, order: seq<string>,
                    names: seq<string>, files: map<string, string>, i: nat, tags: seq<string>)
    requires i < |names| && names[i] in files
    requires Tallied(counts0, order0, names[..i], files)
    requires IsTextFile(names[i]) ==>
      (forall t :: t in tags <==> t in ParseTags(files[names[i]]))
      && ListedOnce(order) && (forall t :: t in order <==> t in counts) && CountedOnceMore(counts0, counts, tags)
    requires !IsTextFile(names[i]) ==> counts == counts0 && order == order0
    ensures Tallied(counts, order, names[..i + 1], files)
  {
    forall t
      ensures FilesWithTag(names[..i + 1], files, t) == FilesWithTag(names[..i], files, t)
        + (if IsTextFile(names[i]) && t in ParseTags(files[names[i]]) then 1 else 0)
    {
      FilesWithTagStep(names, files, i, t);
    }
  }

  /** The body of the delete scan for one entry: a `.txt` file is read,
      and written back without the tag only when one of its tokens matched. */
  method DeleteTagInFile(files: map<string, string>, file: string, tag: string) returns (updated: map<string, string>)
    requires file in files
    ensures updated == if IsTextFile(file) then files[file := ContentWithoutTag(files[file], tag)] else files
  {
    updated := files;
    if IsTextFile(file) {
      var content := files[file];
      var tags := ParseTags(content);
      if ContainsIgnoringCase(tags, tag) {
        updated := files[file := SerializeTags(RemoveIgnoringCase(tags, tag))];
      } else {
        UpdateSame(files, file);
      }
    }
  }

  /** The listing after `name` is written: as it was when `name` is listed,
      with `name` after the existing entries when the file is new. */
  function ListedAfterWrite(names: seq<string>, name: string): seq<string> {
    if name in names then names else names + [name]
  }

  lemma ListedAfterWriteHas(names: seq<string>, name: string, g: string)
    ensures g in ListedAfterWrite(names, name) <==> g in names || g == name
  {
  }

  /** The media directory: `names` in the order the directory lists them,
      `files` the text of each entry. */
  class MediaFolder {
    var names: seq<string>
    var files: map<string, string>

    ghost predicate Valid()
      reads this
    {
      ListedOnce(names) && forall f :: f in names <==> f in files
    }

    constructor ()
      ensures Valid() && names == [] && files == map[]
    {
      names := [];
      files := map[];
    }

    /** `fs.writeFile(name, content)`: overwrites the file, or creates it, in
        which case it is listed after the existing entries. */
    method Write(name: string, content: string)
      requires Valid()
      modifies this
      ensures Valid()
      ensures files == old(files)[name := content]
      ensures names == ListedAfterWrite(old(names), name)
    {
      if name !in names {
        assert (names + [name])[..|names|] == names;
        names := names + [name];
      }
      files := files[name := content];
    }

    /** `DELETE /api/tags/:tag`: every `.txt` file whose tags contain `tag`
        ignoring case is rewritten without it; other files are not touched. */
    method DeleteTagEverywhere(tag: string)
      requires Valid()
      modifies this
      ensures Valid() && names == old(names)
      ensures files == WithTagDeleted(old(files), names, tag)
    {
      var listed := names;
      var original := files;
      var updated := files;
      for i := 0 to |listed|
        invariant unchanged(this)
        invariant updated == WithTagDeleted(original, listed[..i], tag)
      {
        var file := listed[i];
        WithTagDeletedSnoc(original, listed, i, tag);
        updated := DeleteTagInFile(updated, file, tag);
      }
      assert listed[..|listed|] == listed;
      files := updated;
    }

    /** `GET /api/tags`: every tag found in the `.txt` files, once, in the order
        first met, with the number of files whose tags contain it (repeats
        within one file count once). */
    method CountTags() returns (counts: seq<TagCount>)
      requires Valid()
      ensures ListedOnce(TagNames(counts))
      ensures forall t :: t in TagNames(counts) <==> FilesWithTag(names, files, t) > 0
      ensures forall c :: c in counts ==> c.count == FilesWithTag(names, files, c.name)
      ensures TagNames(counts) == Dedup(TagsMet(names, files))
    {
      var tagCounts: map<string, nat> := map[];
      var order: seq<string> := [];
      for i := 0 to |names|
        invariant Tallied(tagCounts, order, names[..i], files)
        invariant order == Dedup(TagsMet(names[..i], files))
      {
        var file := names[i];
        ghost var counts0, order0 := tagCounts, order;
        var tags: seq<string> := [];
        if IsTextFile(file) {
          tags := DistinctTags(files[file]);
          tagCounts, order := Tally(tagCounts, order, tags);
        }
        TalliedStep(counts0, order0, tagCounts, order, names, files, i, tags);
        KeyOrderAfterFile(order0, order, names, files, i, tags);
      }
      assert names[..|names|] == names;
      counts := CountsInOrder(order, tagCounts);
    }
  }
}
