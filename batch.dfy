/** The batch auto-tagging job: the status record, submit, status, cancel, and
    the per-file loop that merges the tagger's output into each sidecar.

    The loop of the server runs detached and waits for the tagger on every
    file. Here that wait splits the loop: `Submit` starts the first file, and
    each later event (the tagger answering, a cancel) is a method call. The
    tagger's answer is an argument, `None` when it fails. */
module Batch {
  import opened Wrappers
  import opened Tags
  import opened Paths
  import opened Folder

  /** The record served by `GET /api/autotag-batch/status`. */
  datatype BatchState = BatchState(isRunning: bool, total: nat, processed: nat, currentFile: string)

  /** The record before any job was submitted. */
  const Idle := BatchState(false, 0, 0, "")

  /** 202, 409 and 400 of `POST /api/autotag-batch`. */
  datatype SubmitReply = Accepted | AlreadyRunning | NoFilenames

  /** 200 and 404 of `POST /api/autotag-batch/cancel`. */
  datatype CancelReply = CancellationRequested | NothingRunning

  /** What a job was submitted with, besides its files: the merge mode and
      the raw custom tag. */
  datatype JobSettings = JobSettings(mode: Mode, customTag: Option<string>)

  /** A loop whose job was cancelled and replaced by a newer one, still
      waiting for the tagger on `file`. */
  datatype StaleRun = StaleRun(file: string, settings: JobSettings)

  /** The sidecar text written for `file` once the tagger returned
      `generated`: the existing tags merged with the generated ones and the
      cleaned custom tag, in the job's mode. A missing sidecar counts as no
      tags. */
  function TaggedContent(files: map<string, string>, file: string, generated: string, settings: JobSettings): string {
    SerializeTags(Merged(ParseTags(SidecarText(files, file)), ParseTags(generated),
                         CleanCustomTag(settings.customTag), settings.mode))
  }

  /** Reading the sidecar back gives the merged tags: the generated ones, the
      custom tag, and the existing ones unless the mode is replace, each once. */
  lemma TaggedContentParses(files: map<string, string>, file: string, generated: string, settings: JobSettings, t: string)
    requires settings.customTag.Some? ==> ',' !in settings.customTag.value
    ensures NoDuplicates(ParseTags(TaggedContent(files, file, generated, settings)))
    ensures t in ParseTags(TaggedContent(files, file, generated, settings)) <==>
      t in ParseTags(generated) || CleanCustomTag(settings.customTag) == Some(t)
      || (settings.mode != Replace && t in ParseTags(SidecarText(files, file)))
  {
    var existing, newTags := ParseTags(SidecarText(files, file)), ParseTags(generated);
    var custom := CleanCustomTag(settings.customTag);
    assert custom.Some? ==> WellFormedTag(custom.value) by {
      if custom.Some? {
        assert forall c :: c in custom.value ==> c in settings.customTag.value;
      }
    }
    var merged := Merged(existing, newTags, custom, settings.mode);
    assert ParseTags(SerializeTags(merged)) == merged by {
      MergedRoundTrip(existing, newTags, custom, settings.mode);
    }
  }

  /** The loop's write for one file: the sidecar of `file` gets the merged tags. */
  method WriteMergedSidecar(folder: MediaFolder, file: string, generated: string, settings: JobSettings)
    requires folder.Valid()
    modifies folder
    ensures folder.Valid()
    ensures folder.files == old(folder.files)[SidecarName(file) := TaggedContent(old(folder.files), file, generated, settings)]
    ensures folder.names == ListedAfterWrite(old(folder.names), SidecarName(file))
  {
    var existing := ParseTags(SidecarText(folder.files, file));
    var merged := MergeTags(existing, ParseTags(generated), CleanCustomTag(settings.customTag), settings.mode);
    folder.Write(SidecarName(file), SerializeTags(merged));
  }

  /** How a job computes the text of a sidecar: from the folder as it stands,
      the image file and the tagger's answer. */
  type SidecarWriter = (map<string, string>, string, string) -> string

  /** The writer of a job with these settings: the merge of `TaggedContent`. */
  function Tagging(settings: JobSettings): SidecarWriter {
    (files, file, answer) => TaggedContent(files, file, answer, settings)
  }

  /** The folder's files after the first `n` files of a job were tagged, in
      order: each answered file's sidecar gets the text `write` computes from
      the folder at that moment. */
  function FilesAfterRun(files: map<string, string>, filenames: seq<string>, outcomes: seq<Option<string>>,
                         write: SidecarWriter, n: nat): map<string, string>
    requires n <= |filenames| && n <= |outcomes|
  {
    if n == 0 then files
    else
      var before := FilesAfterRun(files, filenames, outcomes, write, n - 1);
      var file := filenames[n - 1];
      if outcomes[n - 1].Some? then before[SidecarName(file) := write(before, file, outcomes[n - 1].value)]
      else before
  }

  /** The listing after the same writes: each sidecar created is listed at the end. */
  function NamesAfterRun(names: seq<string>, filenames: seq<string>, outcomes: seq<Option<string>>, n: nat): seq<string>
    requires n <= |filenames| && n <= |outcomes|
  {
    if n == 0 then names
    else
      var before := NamesAfterRun(names, filenames, outcomes, n - 1);
      if outcomes[n - 1].Some? then ListedAfterWrite(before, SidecarName(filenames[n - 1])) else before
  }

  /** Whether file `k` of the job was answered and its sidecar is `g`. */
  predicate WritesTo(filenames: seq<string>, outcomes: seq<Option<string>>, k: nat, g: string)
    requires k < |filenames| && k < |outcomes|
  {
    outcomes[k].Some? && SidecarName(filenames[k]) == g
  }

  /** A run writes nothing but the sidecars of answered files: every other
      file keeps its text, and no other file appears, in the folder or in its
      listing. */
  lemma {:induction false} RunWritesOnlySidecars(files: map<string, string>, filenames: seq<string>,
                                                 outcomes: seq<Option<string>>, write: SidecarWriter, n: nat, g: string)
    requires n <= |filenames| && n <= |outcomes|
    requires forall k :: 0 <= k < n ==> !WritesTo(filenames, outcomes, k, g)
    ensures g in FilesAfterRun(files, filenames, outcomes, write, n) <==> g in files
    ensures g in files ==> FilesAfterRun(files, filenames, outcomes, write, n)[g] == files[g]
  {
    if n > 0 {
      assert !WritesTo(filenames, outcomes, n - 1, g);
      RunWritesOnlySidecars(files, filenames, outcomes, write, n - 1, g);
    }
  }

  /** Likewise, the listing gains only the sidecars of answered files. */
  lemma {:induction false} RunListsOnlySidecars(names: seq<string>, filenames: seq<string>,
                                                outcomes: seq<Option<string>>, n: nat, g: string)
    requires n <= |filenames| && n <= |outcomes|
    requires forall k :: 0 <= k < n ==> !WritesTo(filenames, outcomes, k, g)
    ensures g in NamesAfterRun(names, filenames, outcomes, n) <==> g in names
  {
    if n > 0 {
      var before := NamesAfterRun(names, filenames, outcomes, n - 1);
      assert !WritesTo(filenames, outcomes, n - 1, g);
      RunListsOnlySidecars(names, filenames, outcomes, n - 1, g);
      if outcomes[n - 1].Some? {
        ListedAfterWriteHas(before, SidecarName(filenames[n - 1]), g);
      }
    }
  }

  /** The sidecar of an answered file ends with the text written by the last
      answered file that shares it, computed from the folder just before. */
  lemma {:induction false} RunLastWriteWins(files: map<string, string>, filenames: seq<string>,
                                            outcomes: seq<Option<string>>, write: SidecarWriter, n: nat, k: nat)
    requires k < n <= |filenames| && n <= |outcomes| && outcomes[k].Some?
    requires forall j :: k < j < n ==> !WritesTo(filenames, outcomes, j, SidecarName(filenames[k]))
    ensures var g := SidecarName(filenames[k]);
      g in FilesAfterRun(files, filenames, outcomes, write, n)
      && FilesAfterRun(files, filenames, outcomes, write, n)[g]
         == write(FilesAfterRun(files, filenames, outcomes, write, k), filenames[k], outcomes[k].value)
    decreases n
  {
    if n - 1 > k {
      assert !WritesTo(filenames, outcomes, n - 1, SidecarName(filenames[k]));
      RunLastWriteWins(files, filenames, outcomes, write, n - 1, k);
    }
  }

  /** The sidecar of every answered file is listed after the run. */
  lemma {:induction false} RunListsSidecars(names: seq<string>, filenames: seq<string>,
                                            outcomes: seq<Option<string>>, n: nat, k: nat)
    requires k < n <= |filenames| && n <= |outcomes| && outcomes[k].Some?
    ensures SidecarName(filenames[k]) in NamesAfterRun(names, filenames, outcomes, n)
    decreases n
  {
    if n - 1 > k {
      RunListsSidecars(names, filenames, outcomes, n - 1, k);
    }
  }

  /** The batch job as the server keeps it. `state` is the status record;
      `filenames` and `settings` belong to the job that record describes.
      While `inFlight`, that job's loop waits for the tagger on
      `state.currentFile`, which is `filenames[state.processed]`. `stale` lists
      the loops of earlier, cancelled jobs that still wait for the tagger:
      each keeps its own record, so the current one is never touched by them. */
  class BatchCoordinator {
    var state: BatchState
    var filenames: seq<string>
    var settings: JobSettings
    var inFlight: bool
    var stale: multiset<StaleRun>

    ghost predicate Valid()
      reads this
    {
      && state.total == |filenames|
      && state.processed <= state.total
      && (state.isRunning ==> inFlight)
      && (inFlight ==> state.processed < |filenames| && state.currentFile == filenames[state.processed])
    }

    constructor ()
      ensures Valid() && state == Idle && !inFlight && stale == multiset{}
    {
      state := Idle;
      filenames := [];
      settings := JobSettings(Append, None);
      inFlight := false;
      stale := multiset{};
    }

    /** `POST /api/autotag-batch`. A running job gets 409 and an empty or
        missing list 400, both with nothing changed. Otherwise the record is
        reset for the new list and its loop starts the first file before the
        handler returns. A loop of a cancelled job still waiting for the
        tagger is kept aside with its own settings. */
    method Submit(files: Option<seq<string>>, mode: Option<string>, customTag: Option<string>)
      returns (reply: SubmitReply)
      requires Valid()
      modifies this
      ensures Valid()
      ensures old(state.isRunning) ==> reply == AlreadyRunning && unchanged(this)
      ensures !old(state.isRunning) && (files.None? || files.value == []) ==> reply == NoFilenames && unchanged(this)
      ensures reply == Accepted <==> !old(state.isRunning) && files.Some? && files.value != []
      ensures reply == Accepted ==>
        && state == BatchState(true, |files.value|, 0, files.value[0])
        && filenames == files.value && inFlight
        && settings == JobSettings(ModeOf(mode), customTag)
        && stale == old(stale) + if old(inFlight) then multiset{StaleRun(old(state.currentFile), old(settings))} else multiset{}
    {
      if state.isRunning {
        return AlreadyRunning;
      }
      if files.None? || |files.value| == 0 {
        return NoFilenames;
      }
      if inFlight {
        stale := stale + multiset{StaleRun(state.currentFile, settings)};
      }
      var fs := files.value;
      state := BatchState(true, |fs|, 0, "");
      filenames := fs;
      settings := JobSettings(ModeOf(mode), customTag);
      // The detached loop runs up to its first wait before the handler returns.
      state := state.(currentFile := fs[0]);
      inFlight := true;
      reply := Accepted;
    }

    /** `GET /api/autotag-batch/status`: the record, as it stands. */
    method Status() returns (s: BatchState)
      requires Valid()
      ensures s == state && s.processed <= s.total
      ensures s.isRunning ==> s.processed < s.total
    {
      s := state;
    }

    /** `POST /api/autotag-batch/cancel`: a running job is marked as stopped
        (its loop notices before the next file); otherwise 404 and nothing
        changes. */
    method Cancel() returns (reply: CancelReply)
      requires Valid()
      modifies this
      ensures Valid()
      ensures reply == CancellationRequested <==> old(state.isRunning)
      ensures old(state.isRunning) ==> state == old(state).(isRunning := false)
      ensures !old(state.isRunning) ==> state == old(state)
      ensures filenames == old(filenames) && settings == old(settings)
      ensures inFlight == old(inFlight) && stale == old(stale)
    {
      if state.isRunning {
        state := state.(isRunning := false);
        reply := CancellationRequested;
      } else {
        reply := NothingRunning;
      }
    }

    /** The tagger answers for the current job's file in flight. On success
        the merged tags are written to the file's sidecar; success or not,
        the file counts as processed. The loop then starts the next file only
        if the job is still running and files are left; otherwise it ends,
        leaving the job stopped. */
    method FinishFile(outcome: Option<string>, folder: MediaFolder)
      requires Valid() && inFlight && folder.Valid()
      modifies this, folder
      ensures Valid() && folder.Valid()
      ensures filenames == old(filenames) && settings == old(settings) && stale == old(stale)
      ensures state.total == old(state.total) && state.processed == old(state.processed) + 1
      ensures outcome.None? ==> folder.files == old(folder.files) && folder.names == old(folder.names)
      ensures outcome.Some? ==> folder.files == old(folder.files)[SidecarName(old(state.currentFile)) :=
        Tagging(settings)(old(folder.files), old(state.currentFile), outcome.value)]
      ensures outcome.Some? ==> folder.names == ListedAfterWrite(old(folder.names), SidecarName(old(state.currentFile)))
      ensures var more := old(state.isRunning) && state.processed < state.total;
        inFlight == more && state.isRunning == more
        && (!more ==> state.currentFile == old(state.currentFile))
      ensures old(state.isRunning) && !inFlight ==> state.processed == state.total
    {
      var file := state.currentFile;
      if outcome.Some? {
        WriteMergedSidecar(folder, file, outcome.value, settings);
      }
      state := state.(processed := state.processed + 1);
      if state.isRunning && state.processed < |filenames| {
        state := state.(currentFile := filenames[state.processed]);
      } else {
        state := state.(isRunning := false);
        inFlight := false;
      }
    }

    /** The tagger answers for a cancelled job's loop: it writes that file's
        sidecar with its own job's settings and ends, leaving the current
        record alone. */
    method FinishStale(run: StaleRun, outcome: Option<string>, folder: MediaFolder)
      requires Valid() && run in stale && folder.Valid()
      modifies this, folder
      ensures Valid() && folder.Valid()
      ensures state == old(state) && filenames == old(filenames) && settings == old(settings) && inFlight == old(inFlight)
      ensures stale == old(stale) - multiset{run}
      ensures outcome.None? ==> folder.files == old(folder.files) && folder.names == old(folder.names)
      ensures outcome.Some? ==> folder.files == old(folder.files)[SidecarName(run.file) :=
        TaggedContent(old(folder.files), run.file, outcome.value, run.settings)]
      ensures outcome.Some? ==> folder.names == ListedAfterWrite(old(folder.names), SidecarName(run.file))
    {
      if outcome.Some? {
        WriteMergedSidecar(folder, run.file, outcome.value, run.settings);
      }
      stale := stale - multiset{run};
    }

    /** A job run from its first file to the end with no other request but,
        possibly, one cancel arriving while file `cancelAt` is being tagged;
        `outcomes[k]` is the tagger's answer for file `k`. Every started file
        is processed once; without a cancel all are, and after a cancel no
        further file starts. */
    method RunToEnd(outcomes: seq<Option<string>>, cancelAt: Option<nat>, folder: MediaFolder)
      requires Valid() && folder.Valid()
      requires state.isRunning && state.processed == 0 && |outcomes| == |filenames|
      modifies this, folder
      ensures Valid() && folder.Valid()
      ensures !state.isRunning && !inFlight && filenames == old(filenames)
      ensures settings == old(settings) && stale == old(stale)
      ensures cancelAt.Some? && cancelAt.value < |filenames| ==> state.processed == cancelAt.value + 1
      ensures cancelAt.None? || cancelAt.value >= |filenames| ==> state.processed == state.total
      ensures folder.files == FilesAfterRun(old(folder.files), filenames, outcomes, Tagging(settings), state.processed)
      ensures folder.names == NamesAfterRun(old(folder.names), filenames, outcomes, state.processed)
    {
      ghost var files0, names0 := folder.files, folder.names;
      while inFlight
        invariant Valid() && folder.Valid() && filenames == old(filenames)
        invariant settings == old(settings) && stale == old(stale)
        invariant folder.files == FilesAfterRun(files0, filenames, outcomes, Tagging(settings), state.processed)
        invariant folder.names == NamesAfterRun(names0, filenames, outcomes, state.processed)
        invariant inFlight ==> state.isRunning
        invariant inFlight ==> cancelAt.None? || state.processed <= cancelAt.value
        invariant !inFlight ==> !state.isRunning
        invariant !inFlight && cancelAt.Some? && cancelAt.value < |filenames| ==> state.processed == cancelAt.value + 1
        invariant !inFlight && (cancelAt.None? || cancelAt.value >= |filenames|) ==> state.processed == state.total
        decreases |filenames| - state.processed
      {
        if cancelAt == Some(state.processed) {
          var _ := Cancel();
        }
        FinishFile(outcomes[state.processed], folder);
      }
    }
  }

  // ---------------------------------------------------------------------
  // The record as the server shares it between loops

  /** A loop of the server waiting for the tagger on `filenames[position]`. */
  datatype LoopAsWritten = LoopAsWritten(filenames: seq<string>, position: nat)

  /** The server's one status record and every loop still waiting. Every
      loop reads and updates that one record, whichever job started it. */
  datatype ServerAsWritten = ServerAsWritten(state: BatchState, loops: seq<LoopAsWritten>)

  /** Submit on the shared record: the record is replaced and a new loop
      starts, while loops of cancelled jobs keep waiting. */
  function SubmitAsWritten(s: ServerAsWritten, files: Option<seq<string>>): (r: ServerAsWritten)
    ensures s.state.isRunning || files.None? || files.value == [] ==> r == s
    ensures !s.state.isRunning && files.Some? && files.value != [] ==>
      r.state == BatchState(true, |files.value|, 0, files.value[0]) && |r.loops| == |s.loops| + 1
  {
    if s.state.isRunning || files.None? || |files.value| == 0 then s
    else
      var fs := files.value;
      ServerAsWritten(BatchState(true, |fs|, 0, fs[0]), s.loops + [LoopAsWritten(fs, 0)])
  }

  /** Cancel on the shared record. */
  function CancelAsWritten(s: ServerAsWritten): (r: ServerAsWritten)
    ensures !r.state.isRunning && r.loops == s.loops
  {
    s.(state := s.state.(isRunning := false))
  }

  /** The tagger answers for loop `i`: it counts its file on the shared
      record, then continues with its own next file if that record says a
      job is running, or ends and marks the record stopped. */
  function FinishAsWritten(s: ServerAsWritten, i: nat): (r: ServerAsWritten)
    requires i < |s.loops|
    ensures r.state.processed == s.state.processed + 1 && r.state.total == s.state.total
  {
    var loop := s.loops[i];
    var counted := s.state.(processed := s.state.processed + 1);
    if counted.isRunning && loop.position + 1 < |loop.filenames| then
      ServerAsWritten(counted.(currentFile := loop.filenames[loop.position + 1]),
                      s.loops[i := loop.(position := loop.position + 1)])
    else
      ServerAsWritten(counted.(isRunning := false), s.loops[..i] + s.loops[i + 1..])
  }

  /** Cancel a two-file job while its first file is being tagged, submit a
      one-file job, and let the tagger answer the old loop twice. The old loop
      counts on the new job's record, carries on because that record says
      running, reports more files processed than the job has, and finally
      stops the new job whose own loop is still waiting. */
  lemma OverlappingJobsOvercount()
    ensures var s0 := ServerAsWritten(Idle, []);
      var s1 := SubmitAsWritten(s0, Some(["a.png", "b.png"]));
      var s2 := CancelAsWritten(s1);
      var s3 := SubmitAsWritten(s2, Some(["c.png"]));
      var s4 := FinishAsWritten(s3, 0);
      var s5 := FinishAsWritten(s4, 0);
      && s4.state == BatchState(true, 1, 1, "b.png")
      && s5.state == BatchState(false, 1, 2, "b.png")
      && s5.state.processed > s5.state.total
      && s5.loops == [LoopAsWritten(["c.png"], 0)]
  {
    var s0 := ServerAsWritten(Idle, []);
    var s1 := SubmitAsWritten(s0, Some(["a.png", "b.png"]));
    assert s1 == ServerAsWritten(BatchState(true, 2, 0, "a.png"), [LoopAsWritten(["a.png", "b.png"], 0)]);
    var s2 := CancelAsWritten(s1);
    var s3 := SubmitAsWritten(s2, Some(["c.png"]));
    assert s3.loops == [LoopAsWritten(["a.png", "b.png"], 0), LoopAsWritten(["c.png"], 0)];
    assert s3.state == BatchState(true, 1, 0, "c.png");
    var s4 := FinishAsWritten(s3, 0);
    assert s4.loops == [LoopAsWritten(["a.png", "b.png"], 1), LoopAsWritten(["c.png"], 0)];
    var s5 := FinishAsWritten(s4, 0);
    assert s4.loops[1..] == [LoopAsWritten(["c.png"], 0)];
  }

  /** The same events on the coordinator: the cancelled job's loop writes its
      file and ends, and the new job's record is untouched. */
  method OverlappingJobsKeepCount(folder: MediaFolder) returns (final: BatchState)
    requires folder.Valid()
    modifies folder
    ensures final == BatchState(true, 1, 0, "c.png")
    ensures final.processed <= final.total
  {
    var coordinator := new BatchCoordinator();
    var accepted := coordinator.Submit(Some(["a.png", "b.png"]), None, None);
    var cancelled := coordinator.Cancel();
    accepted := coordinator.Submit(Some(["c.png"]), None, None);
    var oldRun := StaleRun("a.png", JobSettings(Append, None));
    assert oldRun in coordinator.stale;
    coordinator.FinishStale(oldRun, Some("cat"), folder);
    final := coordinator.Status();
  }
}
