/** Sidecar tag lists: parsing and serialising the comma-separated text, the
    insertion-ordered `Set` the merges are built in, the three merge modes of
    auto-tagging, and the case-insensitive removal of one tag. */
module Tags {
  import opened Wrappers
  import opened JsText

  /** What a parsed tag always is: non-empty, trimmed and free of commas. */
  predicate WellFormedTag(t: string) {
    t != [] && IsTrimmed(t) && ',' !in t
  }

  /** `.map(t => t.trim()).filter(Boolean)` applied to the pieces of a split. */
  function TrimNonEmpty(pieces: seq<string>): (r: seq<string>)
    ensures |r| <= |pieces|
    ensures forall t :: t in r ==> t != [] && IsTrimmed(t)
    ensures (forall p :: p in pieces ==> ',' !in p) ==> forall t :: t in r ==> ',' !in t
  {
    if pieces == [] then []
    else
      var t := Trim(pieces[0]);
      if t == [] then TrimNonEmpty(pieces[1..]) else [t] + TrimNonEmpty(pieces[1..])
  }

  /** `content.split(',').map(t => t.trim()).filter(Boolean)`. */
  function ParseTags(content: string): (tags: seq<string>)
    ensures forall t :: t in tags ==> WellFormedTag(t)
  {
    TrimNonEmpty(Split(content, ','))
  }

  /** `tags.join(', ')`, the sidecar text written back. */
  function SerializeTags(tags: seq<string>): (r: string)
    ensures (forall t :: t in tags ==> t != []) ==> (r == [] <==> tags == [])
    ensures |tags| >= 1 ==> tags[0] <= r
  {
    assert |tags| >= 1 ==> tags[0] in tags;
    Join(tags, ", ")
  }

  /** The text of two non-empty tag lists is their texts joined by ", ". */
  lemma SerializeTagsAppend(a: seq<string>, b: seq<string>)
    requires |a| > 0 && |b| > 0
    ensures SerializeTags(a + b) == SerializeTags(a) + ", " + SerializeTags(b)
  {
    JoinAppend(a, b, ", ");
  }

  /** Writing well-formed tags and reading them back gives the same list. */
  lemma ParseSerialize(tags: seq<string>)
    requires forall t :: t in tags ==> WellFormedTag(t)
    ensures ParseTags(SerializeTags(tags)) == tags
  {
    var empty: string := [];
    assert empty + SerializeTags(tags) == SerializeTags(tags);
    ParsePadded(empty, tags);
  }

  lemma {:induction false} ParsePadded(pad: string, tags: seq<string>)
    requires pad == [] || pad == " "
    requires forall t :: t in tags ==> WellFormedTag(t)
    ensures TrimNonEmpty(Split(pad + SerializeTags(tags), ',')) == tags
    decreases |tags|
  {
    if tags == [] {
      ParsePaddedNone(pad);
    } else if |tags| == 1 {
      ParsePaddedOne(pad, tags);
    } else {
      ParsePadded(" ", tags[1..]);
      ParsePaddedMore(pad, tags);
    }
  }

  lemma ParsePaddedOne(pad: string, tags: seq<string>)
    requires pad == [] || pad == " "
    requires |tags| == 1 && WellFormedTag(tags[0])
    ensures TrimNonEmpty(Split(pad + SerializeTags(tags), ',')) == tags
  {
    ParsePaddedSingle(pad, tags[0]);
    assert [tags[0]] == tags;
  }

  lemma ParsePaddedMore(pad: string, tags: seq<string>)
    requires pad == [] || pad == " "
    requires |tags| >= 2 && WellFormedTag(tags[0])
    requires TrimNonEmpty(Split(" " + SerializeTags(tags[1..]), ',')) == tags[1..]
    ensures TrimNonEmpty(Split(pad + SerializeTags(tags), ',')) == tags
  {
    var pieces := SplitPaddedCons(pad, tags);
    TrimPadded(pad, tags[0]);
    TrimNonEmptyCons(pieces, tags[0]);
    assert [tags[0]] + tags[1..] == tags;
  }

  lemma ParsePaddedNone(pad: string)
    requires pad == [] || pad == " "
    ensures TrimNonEmpty(Split(pad + SerializeTags([]), ',')) == []
  {
    assert pad + SerializeTags([]) == pad;
    SplitWithoutSeparator(pad, ',');
    assert AllSpace(pad);
  }

  lemma ParsePaddedSingle(pad: string, t: string)
    requires pad == [] || pad == " "
    requires WellFormedTag(t)
    ensures TrimNonEmpty(Split(pad + SerializeTags([t]), ',')) == [t]
  {
    SplitPaddedSingle(pad, t);
    TrimPadded(pad, t);
    TrimNonEmptySingle(pad + t, t);
  }

  lemma SplitPaddedSingle(pad: string, t: string)
    requires pad == [] || pad == " "
    requires WellFormedTag(t)
    ensures Split(pad + SerializeTags([t]), ',') == [pad + t]
  {
    assert pad + SerializeTags([t]) == pad + t;
    assert ',' !in pad + t;
    SplitWithoutSeparator(pad + t, ',');
  }

  lemma TrimPadded(pad: string, t: string)
    requires pad == [] || pad == " "
    requires WellFormedTag(t)
    ensures Trim(pad + t) == t
  {
    TrimAfterSpaces(pad, t);
  }

  lemma TrimNonEmptySingle(s: string, t: string)
    requires WellFormedTag(t) && Trim(s) == t
    ensures TrimNonEmpty([s]) == [t]
  {
  }

  lemma TrimNonEmptyCons(pieces: seq<string>, t: string)
    requires |pieces| >= 1 && WellFormedTag(t) && Trim(pieces[0]) == t
    ensures TrimNonEmpty(pieces) == [t] + TrimNonEmpty(pieces[1..])
  {
  }

  lemma SplitPaddedCons(pad: string, tags: seq<string>) returns (pieces: seq<string>)
    requires pad == [] || pad == " "
    requires |tags| >= 2 && WellFormedTag(tags[0])
    ensures pieces == Split(pad + SerializeTags(tags), ',')
    ensures |pieces| >= 1 && pieces[0] == pad + tags[0] && pieces[1..] == Split(" " + SerializeTags(tags[1..]), ',')
  {
    var tail := " " + SerializeTags(tags[1..]);
    assert pad + SerializeTags(tags) == (pad + tags[0]) + [','] + tail;
    SplitAtSeparator(pad + tags[0], ',', tail);
    pieces := [pad + tags[0]] + Split(tail, ',');
  }

  /** Rewriting a sidecar with its own parsed tags is a normalisation: reading
      the rewritten text gives the same tags again. */
  lemma ReparseIsStable(content: string)
    ensures ParseTags(SerializeTags(ParseTags(content))) == ParseTags(content)
  {
    ParseSerialize(ParseTags(content));
  }

  // ---------------------------------------------------------------------
  // Insertion-ordered sets

  predicate NoDuplicates(s: seq<string>) {
    forall i, j {:trigger |s[i]|, |s[j]|} :: 0 <= i < j < |s| ==> s[i] != s[j]
  }

  /** The elements of `xs` that do not occur in `ys`, in their order. */
  function Without(xs: seq<string>, ys: seq<string>): (r: seq<string>)
    ensures |r| <= |xs|
    ensures forall x :: x in r <==> x in xs && x !in ys
  {
    if xs == [] then []
    else if xs[0] in ys then Without(xs[1..], ys)
    else [xs[0]] + Without(xs[1..], ys)
  }

  /** The first occurrence of every element of `xs`, in order: the reference
      definition of what an insertion-ordered `Set` built from `xs` holds. */
  function Dedup(xs: seq<string>): (r: seq<string>)
    ensures NoDuplicates(r)
    ensures forall x :: x in r <==> x in xs
    decreases |xs|
  {
    if xs == [] then []
    else
      var tail := Dedup(Without(xs[1..], [xs[0]]));
      assert xs[0] !in tail;
      [xs[0]] + tail
  }

  lemma {:induction false} WithoutAppend(a: seq<string>, b: seq<string>, ys: seq<string>)
    ensures Without(a + b, ys) == Without(a, ys) + Without(b, ys)
  {
    if a != [] {
      assert (a + b)[0] == a[0] && (a + b)[1..] == a[1..] + b;
      WithoutAppend(a[1..], b, ys);
      if a[0] !in ys {
        calc {
          Without(a + b, ys);
          [a[0]] + (Without(a[1..], ys) + Without(b, ys));
          ([a[0]] + Without(a[1..], ys)) + Without(b, ys);
        }
      }
    } else {
      assert a + b == b;
    }
  }

  /** Only the members of the excluded list matter. */
  lemma {:induction false} WithoutSameMembers(xs: seq<string>, ys: seq<string>, zs: seq<string>)
    requires forall y :: y in ys <==> y in zs
    ensures Without(xs, ys) == Without(xs, zs)
  {
    if xs != [] {
      WithoutSameMembers(xs[1..], ys, zs);
    }
  }

  lemma {:induction false} WithoutTwice(xs: seq<string>, ys: seq<string>, zs: seq<string>)
    ensures Without(Without(xs, ys), zs) == Without(xs, ys + zs)
  {
    if xs != [] {
      WithoutTwice(xs[1..], ys, zs);
    }
  }

  lemma {:induction false} WithoutAbsent(xs: seq<string>, ys: seq<string>)
    requires forall x :: x in xs ==> x !in ys
    ensures Without(xs, ys) == xs
  {
    if xs != [] {
      WithoutAbsent(xs[1..], ys);
      assert xs == [xs[0]] + xs[1..];
    }
  }

  /** Nothing is left when every element is excluded. */
  lemma {:induction false} WithoutCovered(xs: seq<string>, ys: seq<string>)
    requires forall x :: x in xs ==> x in ys
    ensures Without(xs, ys) == []
  {
    if xs != [] {
      WithoutCovered(xs[1..], ys);
    }
  }

  /** A list without repeats is its own deduplication. */
  lemma {:induction false} DedupOfDistinct(xs: seq<string>)
    requires NoDuplicates(xs)
    ensures Dedup(xs) == xs
    decreases |xs|
  {
    if xs != [] {
      assert forall x :: x in xs[1..] ==> x !in [xs[0]];
      WithoutAbsent(xs[1..], [xs[0]]);
      DedupOfDistinct(xs[1..]);
      assert xs == [xs[0]] + xs[1..];
    }
  }

  /** Deduplicating a concatenation keeps the deduplicated first part intact and
      adds, in order, the new elements of the second part. */
  lemma {:induction false} DedupAppend(a: seq<string>, b: seq<string>)
    ensures Dedup(a + b) == Dedup(a) + Dedup(Without(b, a))
    decreases |a|
  {
    if a == [] {
      WithoutAbsent(b, a);
      assert a + b == b;
    } else {
      var x := a[0];
      var a', b' := Without(a[1..], [x]), Without(b, [x]);
      calc {
        Dedup(a + b);
        { DedupConsAppend(a, b); }
        [x] + Dedup(a' + b');
        { DedupAppend(a', b'); }
        [x] + (Dedup(a') + Dedup(Without(b', a')));
        { WithoutHeadThenTail(a, b); }
        [x] + (Dedup(a') + Dedup(Without(b, a)));
        ([x] + Dedup(a')) + Dedup(Without(b, a));
        { DedupCons(a); }
        Dedup(a) + Dedup(Without(b, a));
      }
    }
  }

  lemma DedupCons(a: seq<string>)
    requires a != []
    ensures Dedup(a) == [a[0]] + Dedup(Without(a[1..], [a[0]]))
  {
  }

  /** One unfolding of `Dedup` on a concatenation: the head of `a`, then the
      rest of both parts with that head removed. */
  lemma DedupConsAppend(a: seq<string>, b: seq<string>)
    requires a != []
    ensures Dedup(a + b) == [a[0]] + Dedup(Without(a[1..], [a[0]]) + Without(b, [a[0]]))
  {
    var x := a[0];
    assert (a + b)[0] == x && (a + b)[1..] == a[1..] + b;
    WithoutAppend(a[1..], b, [x]);
  }

  /** Removing the head of `a`, then the rest of `a` without its head, removes
      exactly the members of `a`. */
  lemma WithoutHeadThenTail(a: seq<string>, b: seq<string>)
    requires a != []
    ensures Without(Without(b, [a[0]]), Without(a[1..], [a[0]])) == Without(b, a)
  {
    var x, a' := a[0], Without(a[1..], [a[0]]);
    WithoutTwice(b, [x], a');
    assert a == [x] + a[1..];
    WithoutSameMembers(b, [x] + a', a);
  }

  /** Adding one element to the end. */
  lemma DedupSnoc(xs: seq<string>, x: string)
    ensures Dedup(xs + [x]) == if x in xs then Dedup(xs) else Dedup(xs) + [x]
  {
    DedupAppend(xs, [x]);
    assert [x][1..] == [];
    if x !in xs {
      assert Dedup(Without([x], xs)) == Dedup([x]) == [x];
    }
  }

  /** Putting a list in front of its own set followed by tags it lacks adds
      nothing: `add`ing `g` again before them changes no set. */
  lemma DedupRepeatedPrefix(g: seq<string>, d: seq<string>)
    requires NoDuplicates(d) && forall x :: x in d ==> x !in g
    ensures Dedup(g + (Dedup(g) + d)) == Dedup(g) + d
  {
    DedupAppend(g, Dedup(g) + d);
    WithoutAppend(Dedup(g), d, g);
    WithoutCovered(Dedup(g), g);
    WithoutAbsent(d, g);
    assert Without(Dedup(g) + d, g) == d;
    DedupOfDistinct(d);
  }

  /** Removing tags and then deduplicating is deduplicating and then removing them. */
  lemma {:induction false} DedupWithout(p: seq<string>, ys: seq<string>)
    ensures Dedup(Without(p, ys)) == Without(Dedup(p), ys)
    decreases |p|
  {
    if p != [] {
      var x, rest := p[0], p[1..];
      var tail := Without(rest, [x]);
      assert p == [x] + rest;
      DedupCons(p);
      DedupWithout(tail, ys);
      WithoutCons(x, Dedup(tail), ys);
      WithoutCons(x, rest, ys);
      WithoutTwice(rest, [x], ys);
      if x in ys {
        WithoutSameMembers(rest, [x] + ys, ys);
      } else {
        var w := Without(rest, ys);
        assert ([x] + w)[1..] == w;
        DedupCons([x] + w);
        WithoutTwice(rest, ys, [x]);
        WithoutSameMembers(rest, ys + [x], [x] + ys);
      }
    }
  }

  /** Adding a list to an insertion-ordered set appends, in the list's order,
      the members the set does not hold yet. */
  lemma DedupExtend(a: seq<string>, p: seq<string>)
    ensures Dedup(a + p) == Dedup(a) + Without(Dedup(p), Dedup(a))
  {
    DedupAppend(a, p);
    DedupWithout(p, a);
    WithoutSameMembers(Dedup(p), a, Dedup(a));
  }

  /** Deduplicating a prefix first changes nothing. */
  lemma DedupAfterDedup(a: seq<string>, b: seq<string>)
    ensures Dedup(Dedup(a) + b) == Dedup(a + b)
  {
    DedupAppend(Dedup(a), b);
    DedupOfDistinct(Dedup(a));
    WithoutSameMembers(b, Dedup(a), a);
    DedupAppend(a, b);
  }

  /** A JavaScript `Set` of strings, which iterates in insertion order. */
  class TagSet {
    var items: seq<string>

    ghost predicate Valid()
      reads this
    {
      NoDuplicates(items)
    }

    constructor ()
      ensures Valid() && items == []
    {
      items := [];
    }

    /** `set.add(t)`. */
    method Add(t: string)
      requires Valid()
      modifies this
      ensures Valid()
      ensures items == if t in old(items) then old(items) else old(items) + [t]
    {
      if t !in items {
        items := items + [t];
      }
    }

    /** `ts.forEach(t => set.add(t))`. */
    method AddAll(ts: seq<string>)
      requires Valid()
      modifies this
      ensures Valid()
      ensures items == Dedup(old(items) + ts)
    {
      ghost var start := items;
      DedupOfDistinct(items);
      assert start + ts[..0] == start;
      for i := 0 to |ts|
        invariant Valid()
        invariant items == Dedup(start + ts[..i])
      {
        AddOneMore(start, ts, i);
        Add(ts[i]);
      }
      assert ts[..|ts|] == ts;
    }
  }

  lemma AddOneMore(start: seq<string>, ts: seq<string>, i: nat)
    requires i < |ts|
    ensures Dedup(start + ts[..i + 1])
         == if ts[i] in Dedup(start + ts[..i]) then Dedup(start + ts[..i]) else Dedup(start + ts[..i]) + [ts[i]]
  {
    assert start + ts[..i + 1] == (start + ts[..i]) + [ts[i]];
    DedupSnoc(start + ts[..i], ts[i]);
  }

  // ---------------------------------------------------------------------
  // Merging generated tags into existing ones

  /** How generated tags are combined with the existing ones. */
  datatype Mode = Append | Prepend | Replace

  /** The request's `mode`: `'replace'` and `'prepend'` are recognised and
      anything else, a missing value included, means append. */
  function ModeOf(raw: Option<string>): (m: Mode)
    ensures m == Replace <==> raw == Some("replace")
    ensures m == Prepend <==> raw == Some("prepend")
  {
    if raw == Some("replace") then Replace
    else if raw == Some("prepend") then Prepend
    else Append
  }

  /** `customTag ? customTag.trim() : null`, kept only when the result is
      truthy, i.e. non-empty. */
  function CleanCustomTag(raw: Option<string>): (r: Option<string>)
    ensures r.None? <==> raw.None? || AllSpace(raw.value)
    ensures r.Some? ==> r.value != [] && IsTrimmed(r.value) && r.value == Trim(raw.value)
  {
    if raw.Some? && raw.value != [] && Trim(raw.value) != [] then Some(Trim(raw.value)) else None
  }

  function OptionalTag(custom: Option<string>): seq<string> {
    if custom.Some? then [custom.value] else []
  }

  /** The tags added to the `Set` before the custom tag: the existing ones when
      appending, the generated ones otherwise. */
  function AddedFirst(existing: seq<string>, generated: seq<string>, mode: Mode): seq<string> {
    if mode == Append then existing else generated
  }

  /** The tags added after the custom tag: the generated ones when appending,
      the existing ones when prepending, none when replacing. */
  function AddedLast(existing: seq<string>, generated: seq<string>, mode: Mode): seq<string> {
    match mode
    case Append => generated
    case Prepend => existing
    case Replace => []
  }

  /** The order in which the batch loop adds tags to its `Set`. */
  function MergeOrder(existing: seq<string>, generated: seq<string>, custom: Option<string>, mode: Mode): seq<string> {
    AddedFirst(existing, generated, mode) + OptionalTag(custom) + AddedLast(existing, generated, mode)
  }

  /** The merged tag list: no tag twice, and exactly the tags of the inputs the
      mode uses (existing tags are dropped by replace unless generated again). */
  function Merged(existing: seq<string>, generated: seq<string>, custom: Option<string>, mode: Mode): (r: seq<string>)
    ensures NoDuplicates(r)
    ensures forall t :: t in r <==>
      t in generated || custom == Some(t) || (mode != Replace && t in existing)
  {
    Dedup(MergeOrder(existing, generated, custom, mode))
  }

  /** Append keeps the existing tags first (deduplicated, in their order), then
      adds the custom tag and the generated tags that are not already present. */
  lemma MergedAppend(existing: seq<string>, generated: seq<string>, custom: Option<string>)
    ensures Merged(existing, generated, custom, Append)
         == Dedup(existing) + Dedup(Without(OptionalTag(custom) + generated, existing))
  {
    var c := OptionalTag(custom);
    assert MergeOrder(existing, generated, custom, Append) == existing + (c + generated);
    DedupAppend(existing, c + generated);
  }

  /** Prepend puts the generated tags first, then the custom tag and the existing
      tags that are not already present. */
  lemma MergedPrepend(existing: seq<string>, generated: seq<string>, custom: Option<string>)
    ensures Merged(existing, generated, custom, Prepend)
         == Dedup(generated) + Dedup(Without(OptionalTag(custom) + existing, generated))
  {
    var c := OptionalTag(custom);
    assert MergeOrder(existing, generated, custom, Prepend) == generated + (c + existing);
    DedupAppend(generated, c + existing);
  }

  /** Replace keeps the generated tags and the custom tag and nothing else. */
  lemma MergedReplace(existing: seq<string>, generated: seq<string>, custom: Option<string>)
    ensures Merged(existing, generated, custom, Replace)
         == Dedup(generated) + Dedup(Without(OptionalTag(custom), generated))
  {
    var c := OptionalTag(custom);
    assert MergeOrder(existing, generated, custom, Replace) == generated + c;
    DedupAppend(generated, c);
  }

  /** The worked example of the merge policy (existing `a, b`, generated `b, c`,
      custom tag `d`, for any four different tags), one lemma per mode. */
  lemma MergeExampleAppend(a: string, b: string, c: string, d: string)
    requires a != b && a != c && a != d && b != c && b != d && c != d
    ensures Merged([a, b], [b, c], Some(d), Append) == [a, b, d, c]
  {
    var e, g := [a, b], [b, c];
    DedupOfDistinct(e);
    assert OptionalTag(Some(d)) + g == [d, b, c];
    WithoutKeepsOuter(d, b, c, e);
    DedupOfDistinct([d, c]);
    MergedAppend(e, g, Some(d));
  }

  lemma MergeExamplePrepend(a: string, b: string, c: string, d: string)
    requires a != b && a != c && a != d && b != c && b != d && c != d
    ensures Merged([a, b], [b, c], Some(d), Prepend) == [b, c, d, a]
  {
    var e, g := [a, b], [b, c];
    DedupOfDistinct(g);
    assert OptionalTag(Some(d)) + e == [d, a, b];
    WithoutKeepsFirstTwo(d, a, b, g);
    DedupOfDistinct([d, a]);
    MergedPrepend(e, g, Some(d));
  }

  /** The two `Without` steps of the worked examples. */
  lemma WithoutKeepsOuter(x: string, y: string, z: string, ys: seq<string>)
    requires x !in ys && y in ys && z !in ys
    ensures Without([x, y, z], ys) == [x, z]
  {
    WithoutCons(z, [], ys);
    WithoutCons(y, [z], ys);
    WithoutCons(x, [y, z], ys);
    assert [x] + [y, z] == [x, y, z] && [y] + [z] == [y, z] && [z] + [] == [z];
  }

  lemma WithoutKeepsFirstTwo(x: string, y: string, z: string, ys: seq<string>)
    requires x !in ys && y !in ys && z in ys
    ensures Without([x, y, z], ys) == [x, y]
  {
    WithoutCons(z, [], ys);
    WithoutCons(y, [z], ys);
    WithoutCons(x, [y, z], ys);
    assert [x] + [y, z] == [x, y, z] && [y] + [z] == [y, z] && [z] + [] == [z];
  }

  /** `Without` takes its list one element at a time. */
  lemma WithoutCons(x: string, xs: seq<string>, ys: seq<string>)
    ensures Without([x] + xs, ys) == (if x in ys then [] else [x]) + Without(xs, ys)
  {
    assert ([x] + xs)[1..] == xs;
  }

  lemma MergeExampleReplace(a: string, b: string, c: string, d: string)
    requires a != b && a != c && a != d && b != c && b != d && c != d
    ensures Merged([a, b], [b, c], Some(d), Replace) == [b, c, d]
  {
    var e, g := [a, b], [b, c];
    DedupOfDistinct(g);
    MergedReplace(e, g, Some(d));
    assert OptionalTag(Some(d)) == [d];
    assert Without([d], g) == [d];
    DedupOfDistinct([d]);
  }

  /** The batch loop's merge: fill a fresh `Set` in the mode's order. */
  method MergeTags(existing: seq<string>, generated: seq<string>, custom: Option<string>, mode: Mode)
    returns (merged: seq<string>)
    ensures merged == Merged(existing, generated, custom, mode)
  {
    var first, last := AddedFirst(existing, generated, mode), AddedLast(existing, generated, mode);
    ghost var c := OptionalTag(custom);
    var finalTags := new TagSet();
    finalTags.AddAll(first);
    assert finalTags.items == Dedup(first) by {
      assert [] + first == first;
    }
    if custom.Some? {
      finalTags.Add(custom.value);
      DedupSnoc(first, custom.value);
    } else {
      assert first + c == first;
    }
    assert finalTags.items == Dedup(first + c);
    finalTags.AddAll(last);
    DedupAfterDedup(first + c, last);
    merged := finalTags.items;
  }

  /** When every input tag is well formed and the custom tag has no comma, the
      merged list is written and read back unchanged. */
  lemma MergedRoundTrip(existing: seq<string>, generated: seq<string>, custom: Option<string>, mode: Mode)
    requires forall t :: t in existing ==> WellFormedTag(t)
    requires forall t :: t in generated ==> WellFormedTag(t)
    requires custom.Some? ==> WellFormedTag(custom.value)
    ensures ParseTags(SerializeTags(Merged(existing, generated, custom, mode))) == Merged(existing, generated, custom, mode)
  {
    ParseSerialize(Merged(existing, generated, custom, mode));
  }

  // ---------------------------------------------------------------------
  // Case-insensitive removal

  /** `tags.some(t => t.toLowerCase() === tag.toLowerCase())`. */
  predicate ContainsIgnoringCase(tags: seq<string>, tag: string) {
    exists t :: t in tags && EqualsIgnoreCase(t, tag)
  }

  /** `tags.filter(t => t.toLowerCase() !== tag.toLowerCase())`. */
  function RemoveIgnoringCase(tags: seq<string>, tag: string): (r: seq<string>)
    ensures forall t :: t in r <==> t in tags && !EqualsIgnoreCase(t, tag)
    ensures |r| <= |tags|
  {
    if tags == [] then []
    else if EqualsIgnoreCase(tags[0], tag) then RemoveIgnoringCase(tags[1..], tag)
    else [tags[0]] + RemoveIgnoringCase(tags[1..], tag)
  }

  /** Removal works token by token, so the kept tags stay in their relative order. */
  lemma {:induction false} RemoveDistributes(a: seq<string>, b: seq<string>, tag: string)
    ensures RemoveIgnoringCase(a + b, tag) == RemoveIgnoringCase(a, tag) + RemoveIgnoringCase(b, tag)
  {
    if a == [] {
      assert a + b == b;
    } else {
      assert (a + b)[1..] == a[1..] + b;
      RemoveDistributes(a[1..], b, tag);
    }
  }

  /** Something is removed exactly when some token matches. */
  lemma {:induction false} RemoveShrinksIffContains(tags: seq<string>, tag: string)
    ensures ContainsIgnoringCase(tags, tag) <==> |RemoveIgnoringCase(tags, tag)| < |tags|
    ensures !ContainsIgnoringCase(tags, tag) ==> RemoveIgnoringCase(tags, tag) == tags
  {
    if tags != [] {
      RemoveShrinksIffContains(tags[1..], tag);
      if !EqualsIgnoreCase(tags[0], tag) {
        assert ContainsIgnoringCase(tags, tag) <==> ContainsIgnoringCase(tags[1..], tag);
      } else {
        assert ContainsIgnoringCase(tags, tag);
      }
      assert tags == [tags[0]] + tags[1..];
    }
  }

  /** The sidecar text after the tag is deleted from it: rewritten from the
      remaining tags when a token matched, left byte for byte otherwise. */
  function ContentWithoutTag(content: string, tag: string): string {
    var tags := ParseTags(content);
    if ContainsIgnoringCase(tags, tag) then SerializeTags(RemoveIgnoringCase(tags, tag)) else content
  }

  /** Reading a file after the deletion gives its former tags minus every token
      equal to the deleted tag ignoring case; none of those is left. */
  lemma ContentWithoutTagParses(content: string, tag: string)
    ensures ParseTags(ContentWithoutTag(content, tag)) == RemoveIgnoringCase(ParseTags(content), tag)
    ensures !ContainsIgnoringCase(ParseTags(ContentWithoutTag(content, tag)), tag)
  {
    var tags := ParseTags(content);
    RemoveShrinksIffContains(tags, tag);
    if ContainsIgnoringCase(tags, tag) {
      ParseSerialize(RemoveIgnoringCase(tags, tag));
    }
  }
}
