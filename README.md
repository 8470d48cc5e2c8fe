# SynapseTagger core, modelled in Dafny

SynapseTagger serves a folder of images. Each image may have a sidecar text
file with the same stem and a `.txt` extension. The sidecar holds the image's
tags as a comma-separated list. The browser page shows the images as a
paginated gallery that can be filtered by tag, and an editor for one image's
tags. The server counts tags across the sidecars and removes a tag from every
sidecar. It also runs a batch job that sends each chosen image to an external
tagger and merges the answer into the sidecar.

This project models the logic of that system:

- `js_text.dfy` (`JsText`) models the JavaScript string primitives the tag
  handling is built from: `trim`, `split`, `join`, `endsWith` and
  `toLowerCase`.
- `tags.dfy` (`Tags`) covers the tag list:
  - parsing a sidecar and writing it back;
  - the insertion-ordered `Set` the merges are built in;
  - the three merge modes (append, prepend, replace) with an optional custom
    tag;
  - removing one tag, ignoring case.
- `paths.dfy` (`Paths`) covers the sidecar naming rule (`getTextFilePath`),
  the image-name filter and the `.txt` filter.
- `folder.dfy` (`Folder`) models the media folder as a class: a listing in
  directory order and the text of each file. On it sit:
  - the media list served to the page;
  - tag counting (`GET /api/tags`);
  - delete-tag-everywhere (`DELETE /api/tags/:tag`).
- `batch.dfy` (`Batch`) models the batch job's status record. The class
  `BatchCoordinator` has submit, status and cancel, plus the per-file step that
  merges the tagger's answer into the sidecar. `BatchCoordinator` is the
  CORRECTED coordinator: a job replaced by a new submit finishes only its
  in-flight file and never touches the new job's record. The record as the
  server actually shares it between overlapping jobs is modelled separately
  by `SubmitAsWritten`, `CancelAsWritten` and `FinishAsWritten` (see Findings).
- `gallery.dfy` (`Gallery`) models the browser page:
  - tag filtering and page slicing;
  - the pagination bar and its buttons;
  - stepping through images in the editor;
  - the image shown after a delete;
  - the editor's own auto-tag merge.

  The page's mutable variables are the fields of the class `GalleryView`.

The tagger, the file system and the browser's clicks become parameters of the
methods. The tagger's answer is an `Option<string>`, `None` when the
subprocess fails. The folder is a class whose methods read and write it.

## Model

| member | source | states |
|---|---|---|
| JsText.Trim | server.js:221 | `trim` leaves no white space at either end, keeps only characters of its input, gives "" exactly for all-white-space input, and changes nothing already trimmed |
| JsText.TrimStripsEnds | server.js:221 | `trim` gives a stretch of its input with only white space cut off before and after it |
| JsText.Split | server.js:221 | `split` gives at least one piece and no piece contains the separator |
| JsText.Join | server.js:238 | `join` of no parts is "", and otherwise starts with the first part, followed by the separator when there are more parts |
| JsText.JoinAppend | server.js:173 | `join` of two non-empty lists is their joins with the separator between them |
| JsText.JoinSplit | server.js:221 | joining the pieces of `split(sep)` with `sep` gives back the string |
| JsText.SplitJoin | server.js:238 | splitting a join of separator-free pieces gives back the pieces |
| JsText.Lower | server.js:171 | `toLowerCase` keeps the length and lowers exactly the ASCII capitals |
| Tags.ParseTags | server.js:221-222 | every parsed tag is non-empty, trimmed and free of commas |
| Tags.SerializeTags | server.js:173 | the written text starts with the first tag, and for non-empty tags it is "" exactly when there are no tags |
| Tags.SerializeTagsAppend | server.js:173 | the text of two non-empty tag lists is their texts joined by ", " |
| Tags.ParseSerialize | server.js:221-238 | a list of well-formed tags written with ", " parses back to the same list |
| Tags.ReparseIsStable | server.js:170-173 | reading a sidecar, writing its tags back and reading again gives the same tags |
| Tags.Dedup | server.js:224-237 | the insertion-ordered set of a list has no repeats and exactly the list's members |
| Tags.DedupAppend | server.js:224-237 | filling a set from `a` then `b` keeps `a`'s set and adds `b`'s new members in order |
| Tags.DedupExtend | server.js:122-127 | adding a list to an insertion-ordered set appends, in the list's order, exactly the members not yet held |
| Tags.TagSet.Add | server.js:227 | `Set.add` appends a tag only when absent and keeps the set repeat-free |
| Tags.TagSet.AddAll | server.js:227 | `forEach(add)` leaves the set equal to the deduplication of old contents plus the added list |
| Tags.ModeOf | server.js:226-233 | 'replace' and 'prepend' select their modes; anything else, missing included, appends |
| Tags.CleanCustomTag | server.js:223-235 | the custom tag is used exactly when present and not all white space, and then it is trimmed and non-empty |
| Tags.Merged | server.js:224-237 | the merge has no repeats and holds exactly the generated tags, the custom tag, and the existing tags unless replacing |
| Tags.MergedAppend | server.js:233-236 | append keeps the existing tags first, then adds the custom and generated tags not already present |
| Tags.MergedPrepend | server.js:229-232 | prepend puts the generated tags first, then the custom and existing tags not already present |
| Tags.MergedReplace | server.js:226-228 | replace keeps the generated tags and the custom tag and nothing else |
| Tags.MergeExampleAppend | server.js:233-236 | for any four different tags, existing a,b with generated b,c and custom d append to a,b,d,c |
| Tags.MergeExamplePrepend | server.js:229-232 | the same inputs prepend to b,c,d,a |
| Tags.MergeExampleReplace | server.js:226-228 | the same inputs replace to b,c,d |
| Tags.MergeTags | server.js:224-237 | filling a `Set` in the mode's order yields the merge |
| Tags.MergedRoundTrip | server.js:221-238 | a merged list of well-formed tags is written and read back unchanged |
| Tags.RemoveIgnoringCase | server.js:172 | removal keeps exactly the tags not equal to the given one ignoring case |
| Tags.RemoveDistributes | server.js:172 | removal works tag by tag, so the kept tags stay in their former order |
| Tags.RemoveShrinksIffContains | server.js:171-172 | removal shortens the list exactly when some tag matches, and is the identity otherwise |
| Tags.ContentWithoutTagParses | server.js:170-173 | a rewritten sidecar parses to the old tags minus the removed one and contains no match |
| Paths.SidecarName | server.js:69-72 | the sidecar name ends in ".txt" and contains no directory part |
| Paths.SidecarSwapsExtension | server.js:69-72 | `stem.ext` gets the sidecar `stem.txt` |
| Paths.SharedSidecar | server.js:69-72 | two images that differ only in extension share one sidecar |
| Paths.StemBeforeExtension | server.js:69-72 | the stem of `stem.ext` (`path.parse(...).name`) is `stem` when the extension has no dot and the stem is neither empty nor a lone dot |
| Paths.IsImageName | server.js:96 | an image name ends in jpg, jpeg, png, gif or webp after a dot, in any case |
| Paths.SidecarIsTextFile | server.js:118 | every sidecar passes the `.txt` filter (the same filter as in the delete scan) |
| Paths.ImageIsNotText | server.js:96-118 | no image passes the `.txt` filter, and an image is never its own sidecar |
| Folder.MediaItems | server.js:93-107 | the media list holds exactly the listed images, and every item carries its image's trimmed sidecar text ("" when missing) |
| Folder.MediaItemsAppend | server.js:93-107 | the media list keeps the listing's order: the items of two stretches of the listing are those of the first followed by those of the second |
| Folder.Tally | server.js:122-125 | one file's distinct tags each add one to their count; the tags not yet keys join the key order at the end, in the order they come |
| Folder.TallyTag | server.js:124 | `set(tag, (get(tag) \|\| 0) + 1)` adds one to the tag's count and makes a new tag the last key |
| Folder.TalliedStep | server.js:120-126 | after each file, every count equals the number of scanned `.txt` files whose tags include it |
| Folder.DistinctTags | server.js:122 | the `Set` of one file's tags is the parsed tags, each once, in the order first met |
| Folder.KeyOrderAfterFile | server.js:120-126 | after each file, the key order is every tag met so far, once each, in the order first met |
| Folder.CountsInOrder | server.js:127 | `Array.from(tagCounts)` lists the keys in insertion order, each with its count from the map |
| Folder.MediaFolder.CountTags | server.js:117-127 | the counted names are distinct, a tag is listed exactly when some `.txt` file has it, its count is the number of such files, and the names come in the order first met across the listed `.txt` files |
| Folder.ListedAfterWriteHas | server.js:238 | after a write the listing holds exactly the old names and the written one |
| Folder.MediaFolder.Write | server.js:173 | writing a file sets its text and lists a new name at the end |
| Folder.DeleteTagInFile | server.js:168-174 | a `.txt` file is rewritten without the tag; any other file is left alone |
| Folder.MediaFolder.DeleteTagEverywhere | server.js:165-175 | the folder afterwards is the scan that rewrites every listed `.txt` file without the tag |
| Folder.WithTagDeleted | server.js:165-175 | the delete scan neither creates nor removes a file |
| Folder.WithTagDeletedAt | server.js:165-175 | each file ends as its original text, or, when it was scanned and is `.txt`, the text without the tag |
| Folder.WithTagDeletedVisited | server.js:165-175 | a scanned `.txt` file ends as its text without the tag, however often it is listed |
| Folder.WithTagDeletedUnvisited | server.js:165-175 | a file the scan does not rewrite keeps its original text |
| Folder.WithTagDeletedOnlyMatches | server.js:171-174 | only `.txt` files that contained a match change |
| Folder.WithTagDeletedParses | server.js:170-173 | every scanned `.txt` file parses to its old tags minus the removed one, with no match left |
| Folder.ContentWithoutTagTwice | server.js:170-173 | removing the same tag twice is the same as once |
| Folder.DeletedTagNotCounted | server.js:117-175 | after the delete, no file counts a tag equal to the deleted one ignoring case |
| Batch.TaggedContentParses | server.js:219-238 | the sidecar written for a file parses to a repeat-free list of the generated tags, the cleaned custom tag and (unless replacing) the existing tags |
| Batch.WriteMergedSidecar | server.js:217-238 | the file's sidecar is set to the merged text, the sidecar is listed (at the end when new), and nothing else changes |
| Batch.BatchCoordinator.constructor | server.js:22 | the record starts idle: not running, 0 of 0, no current file |
| Batch.BatchCoordinator.Submit | server.js:198-216 | while running: 409 and no change; no or empty list: 400 and no change; otherwise 202 and a new running record at file 0 of the list |
| Batch.BatchCoordinator.Status | server.js:249-251 | the status is the record; in the corrected coordinator it never shows more processed than total, and a running job has files left |
| Batch.BatchCoordinator.Cancel | server.js:253-261 | 200 and stop exactly when running, else 404 and no change |
| Batch.BatchCoordinator.FinishFile | server.js:211-244 | a finished file counts once; when the tagger answered its sidecar gets the merge and is listed, otherwise the folder is unchanged; the job continues exactly when still running with files left |
| Batch.BatchCoordinator.FinishStale | server.js:207-246 | in the corrected coordinator, the in-flight file of a replaced job is written (and listed) with that job's settings and the current record is not touched |
| Batch.BatchCoordinator.RunToEnd | server.js:210-246 | a job ends stopped, with all files processed or one past the file during which it was cancelled; the folder's texts and listing are the in-order fold of the merges over the processed files, and the settings and replaced jobs are unchanged |
| Batch.RunWritesOnlySidecars | server.js:210-246 | a run changes and creates no file other than the sidecars of answered files |
| Batch.RunListsOnlySidecars | server.js:210-246 | a run lists no new name other than the sidecars of answered files |
| Batch.RunLastWriteWins | server.js:217-238 | an answered file's sidecar ends with the merge computed for the last answered file sharing it, from the folder just before |
| Batch.RunListsSidecars | server.js:238 | the sidecar of every answered file is listed after the run |
| Batch.SubmitAsWritten | server.js:198-207 | the shared record as written: submit replaces it and starts one more loop |
| Batch.CancelAsWritten | server.js:253-255 | cancel stops the shared record and leaves every loop waiting |
| Batch.FinishAsWritten | server.js:211-245 | a loop counts its file on whatever record is current |
| Batch.OverlappingJobsOvercount | server.js:207-246 | cancel, resubmit, and two answers to the old loop leave 2 of 1 processed and the new job stopped |
| Batch.OverlappingJobsKeepCount | server.js:207-246 | the same events on the coordinator leave the new job running at 0 of 1 |
| Gallery.FilterItems | public/app.js:167 | the gallery shows exactly the items whose trimmed pieces include the filter tag, and every item without a filter |
| Gallery.FilterItemsAppend | public/app.js:167 | filtering keeps the media list's order: the shown items of two stretches are those of the first followed by those of the second |
| Gallery.Filenames | public/app.js:167 | one name per item, the item's name at the same position |
| Gallery.TrimEachAt | public/app.js:167 | `map(t => t.trim())` puts each piece, trimmed, at its own position |
| Gallery.TrimEachHasTag | public/app.js:167 | a non-empty tag is among the trimmed pieces exactly when it is a parsed tag |
| Gallery.ShownIffTagged | public/app.js:167 | with a filter tag, an item is shown exactly when its parsed tags contain it |
| Gallery.FilterKeepsDistinct | public/app.js:167 | filtering keeps file names distinct |
| Gallery.FindItem | public/app.js:172 | `find` returns an item with the name exactly when one exists |
| Gallery.ListedIsFound | public/app.js:167-172 | every name in the gallery list has its item in the media list |
| Gallery.Slice | public/app.js:167 | `slice` from a non-negative start returns the items at start, start+1, …, at most end-start of them |
| Gallery.PageItems | public/app.js:167 | page p holds items (p-1)·n onward, at most n of them; with 'all' the whole list |
| Gallery.PageItemsRange | public/app.js:167 | page k is the stretch of the list from (k-1)·n to k·n, both clamped to the list length |
| Gallery.TotalPages | public/app.js:168 | `ceil(len/n)` pages hold all items with the last one non-empty, and more than n items need at least 2 pages |
| Gallery.PagesUpToIsPrefix | public/app.js:167 | the first k pages are the first k·n items |
| Gallery.PagesCoverList | public/app.js:167-168 | all pages in order are exactly the list |
| Gallery.PaginationView | public/app.js:168-169 | a bar appears exactly with a page length below the list length; Prev is disabled exactly on page 1 and Next exactly on the last page |
| Gallery.NavigatePage | public/app.js:198 | Prev and Next move by one and stop at the ends; a page inside [1, total] stays inside |
| Gallery.NextThenPrev | public/app.js:198 | Next then Prev, away from the last page, returns to the same page |
| Gallery.PrevThenNext | public/app.js:198 | Prev then Next, away from the first page, returns to the same page |
| Gallery.IndexOf | public/app.js:172 | `indexOf` is the first position of the name, or -1 exactly when absent |
| Gallery.IndexOfDistinct | public/app.js:205-206 | in a repeat-free list, `indexOf` finds each entry at its own position |
| Gallery.NextAfterDelete | public/app.js:215-226 | nothing is chosen exactly when the list has at most one image; otherwise the choice is in the list |
| Gallery.NextAfterDeleteIsNeighbour | public/app.js:215-226 | deleting entry k chooses entry k-1 when k is last and entry k+1 otherwise, never the deleted one |
| Gallery.NextAfterDeleteUnlisted | public/app.js:215-226 | a selection missing from the list falls back to the first entry |
| Gallery.EditorMerged | public/app.js:246 | the textarea after auto-tagging parses to the merge without custom tag: repeat-free, the answer's tags and (unless replacing) the old ones |
| Gallery.MergeEditorText | public/app.js:246 | filling a `Set` in the mode's order gives that text |
| Gallery.EditorMergedTwice | public/app.js:246 | auto-tagging twice with the same answer gives the text of the first time, in every mode |
| Gallery.MergedTwice | public/app.js:246 | merging the merge again with the same generated tags changes nothing, in every mode |
| Gallery.AutoTagText | public/app.js:246 | with a selection and an answer the textarea becomes the merge of its tags and the answer's in the chosen mode; otherwise it is unchanged |
| Gallery.GalleryView.constructor | public/app.js:3-12 | page 1, no filter, no selection, editor index -1 |
| Gallery.GalleryView.Render | public/app.js:167-169 | the gallery list is the filtered names, the page is the slice of the current page, the bar is the pagination view |
| Gallery.GalleryView.Reload | public/app.js:171 | a fresh media list replaces the old one and is rendered |
| Gallery.GalleryView.SelectFilter | public/app.js:202 | choosing a tag filters by it from page 1 |
| Gallery.GalleryView.ClearFilter | public/app.js:197 | clearing the filter shows every item from page 1 |
| Gallery.GalleryView.SetPageSize | public/app.js:194 | a new page length shows page 1 |
| Gallery.GalleryView.ClickPage | public/app.js:198 | a pagination click moves to the navigated page and re-renders; a page within range stays within range |
| Gallery.GalleryView.ShowEditor | public/app.js:172 | the name is selected at its index in the list, and the editor opens on its item's text when listed |
| Gallery.GalleryView.ShowGallery | public/app.js:173 | the editor closes and the selection is cleared |
| Gallery.GalleryView.PrevImage | public/app.js:205 | at index 0 or before nothing changes; otherwise the editor moves to index-1, which lies in [0, len-1] |
| Gallery.GalleryView.NextImage | public/app.js:206 | at the last index nothing changes; otherwise the editor moves to index+1, which lies in [0, len-1] |
| Gallery.GalleryView.DeleteSelected | public/app.js:211-243 | after a confirmed delete, the page reloads and opens the chosen neighbour, or returns to the gallery when none was chosen |
| Gallery.GalleryView.AutoTag | public/app.js:246 | with an image selected and an answer, the textarea becomes the editor merge; otherwise nothing changes |

## Left out

- HTTP and Express are not modelled: routing, JSON bodies, CORS, static files, and status codes as transport. The replies are result values of the methods.
- Thumbnail generation and the delete-image route are left out; they are file copying and unlinking. The `PUT /api/media/:filename` save and the editor's save and reset buttons are left out too; each is one write or one read.
- Single-image `POST /api/autotag/:filename` and the tagger subprocess become an `Option<string>` argument, `None` when it fails. The threshold is not modelled. The trimming of the tagger's output is not modelled either, since parsing trims every tag anyway.
- `autotag.py`, `aesthetic_rater_general.py` and `logger.js` are not part of this model (model inference and logging).
- Read and write failures of the folder are not modelled: every listed file is readable. In the source, one failing read aborts the whole tag-delete scan or tag count with a 500.
- Path joining with the media directory is not modelled, nor file names that contain `/`. Names are plain entries of one directory.
- `toLowerCase` is modelled on ASCII letters only; other letters keep their case.
- Batch.TaggedContentParses: requires a custom tag without commas. A custom tag containing a comma is written as is and splits into several tags on the next read, so the round trip holds only without one.
- The await points inside one file of the batch loop (tagger, read, write) are treated as one atomic step.
- On the page, the DOM and HTML strings are not modelled, nor CSS classes, the theme in localStorage, status polling, swipe and keyboard shortcuts, preloading, the preview modal, and the progress percentage (a float).
- Folder.MediaFolder.Write: a newly created file is listed at the end of the listing. This is an assumption about `readdir` order, which the file system does not promise.
- Batch.BatchCoordinator.Status: states the corrected coordinator's bound `processed <= total`. In server.js:207-246 overlapping jobs share one record, and a replaced loop can push `processed` past `total` (Batch.OverlappingJobsOvercount).
- Batch.BatchCoordinator.FinishStale: models the corrected behaviour of a replaced job's in-flight file. In server.js:207-246 that loop increments `processed` on the new job's record and then goes on with its remaining files, because it checks only the shared `isRunning` flag (Batch.FinishAsWritten).
- The sort order of the tag list is not modelled. It is a display sort of the counts.
- Gallery.GalleryView.ShowEditor: does not model the Prev/Next `disabled` flags it sets. The click handlers' own index guards, modelled in `PrevImage` and `NextImage`, enforce the same bounds.
- Gallery.GalleryView.AutoTag: does not model the `is-loading` guard against a second click while a request is pending (concurrency). The request and its answer are one atomic step: the source reads `editorTextarea.value` after the `await`, so going back to the gallery while the tagger runs still overwrites the textarea there, whereas the model, with no selection, leaves it unchanged.
- Gallery.GalleryView.DeleteSelected: the media list after the server's delete is a parameter. The server-side deletion itself is not modelled.

## Findings

| source | as written | input that shows it | evidently intended | confidence | as-written member | corrected member |
|---|---|---|---|---|---|---|
| server.js:207-246 | every batch loop reads and updates the one global `batchState`, which a later submit replaces; a cancelled loop still waiting for the tagger then counts its file on the new job and continues because the new job is running | submit [a.png, b.png]; cancel while a.png is being tagged; submit [c.png]; the tagger answers for a.png, then for b.png | a cancelled job's loop finishes only its in-flight file and leaves the new job's record alone: the new job shows 0 of 1 processed and keeps running | not executed | Batch.OverlappingJobsOvercount | Batch.OverlappingJobsKeepCount |
