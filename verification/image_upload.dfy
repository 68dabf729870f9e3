/** The image upload panel of the camp form: it accepts a batch of files,
    uploads them one after another through the storage service while keeping
    one progress entry per file, appends the URLs that were stored to the
    camp's image list, removes images, and writes the list to the camp row. */
module ImageUpload {
  import opened Common
  import Storage

  /** `maxImages` when the caller gives none */
  const DefaultMaxImages := 10

  datatype Stage = Compressing | Uploading | Done | Error

  /** One entry of `uploadProgress`. */
  datatype Task = Task(fileName: string, stage: Stage, progress: int, error: Option<string>, originalSize: nat)

  /** The update one `setUploadProgress` call makes to the entry it targets:
      a progress report, success, or failure with a message. */
  datatype Patch = Report(phase: Storage.Phase, percent: int) | MarkDone | MarkError(message: string)

  function StageOf(phase: Storage.Phase): Stage
  {
    match phase
    case Compressing => Compressing
    case Uploading => Uploading
  }

  function Apply(t: Task, patch: Patch): Task
  {
    match patch
    case Report(phase, percent) => t.(stage := StageOf(phase), progress := percent)
    case MarkDone => t.(stage := Done, progress := 100)
    case MarkError(message) => t.(stage := Error, error := Some(message))
  }

  /** `prev.map((p, idx) => idx === i ? patched(p) : p)`: a point update of
      entry `i`; every other entry stays as it was. */
  function PatchEntry(tasks: seq<Task>, i: int, patch: Patch): (r: seq<Task>)
    ensures 0 <= i < |tasks| ==> r == tasks[i := Apply(tasks[i], patch)]
    ensures !(0 <= i < |tasks|) ==> r == tasks
  {
    seq(|tasks|, idx requires 0 <= idx < |tasks| => if idx == i then Apply(tasks[idx], patch) else tasks[idx])
  }

  /** The entry a file starts with: uploading, at 0, with its name and size. */
  function InitialTask(file: Storage.File): Task
  {
    Task(file.name, Uploading, 0, None, file.Size())
  }

  /** The entry after the progress callback ran for each report in turn. */
  function Replay(t: Task, events: seq<Storage.Progress>): Task
    decreases |events|
  {
    if |events| == 0 then t
    else
      var last := events[|events| - 1];
      Apply(Replay(t, events[..|events| - 1]), Report(last.phase, last.percent))
  }

  /** Only the last report shows: it sets stage and progress, nothing else. */
  lemma {:induction false} ReplayShowsLast(t: Task, events: seq<Storage.Progress>)
    ensures Replay(t, events) ==
      if |events| == 0 then t
      else t.(stage := StageOf(events[|events| - 1].phase), progress := events[|events| - 1].percent)
  {
    if |events| > 0 {
      ReplayShowsLast(t, events[..|events| - 1]);
    }
  }

  /** The message a failed upload leaves in its entry: the returned `error`, or
      the thrown error's message, or "Upload failed". */
  function FailureMessage(outcome: Settled<Storage.UploadResult>): string
  {
    match outcome
    case Returned(Uploaded(_, _)) => ""
    case Returned(UploadError(message)) => message
    case Raised(thrown) => MessageOr(thrown, "Upload failed")
  }

  /** The entry once its file has been through the storage service. */
  function Settle(t: Task, a: Storage.Attempt): Task
  {
    var reported := Replay(t, a.events);
    if Storage.Succeeded(a) then Apply(reported, MarkDone) else Apply(reported, MarkError(FailureMessage(a.outcome)))
  }

  /** A settled entry is `done` at 100 exactly when its upload returned a URL;
      otherwise it is `error` with the returned or thrown message and keeps the
      progress of the last report. Name and size never change. */
  lemma SettledEntry(t: Task, a: Storage.Attempt)
    ensures var s := Settle(t, a);
      s.fileName == t.fileName && s.originalSize == t.originalSize &&
      (s.stage == Done <==> Storage.Succeeded(a)) &&
      (s.stage == Error <==> !Storage.Succeeded(a)) &&
      (Storage.Succeeded(a) ==> s.progress == 100 && s.error == t.error) &&
      (!Storage.Succeeded(a) ==>
        s.error == Some(FailureMessage(a.outcome)) &&
        s.progress == if |a.events| == 0 then t.progress else a.events[|a.events| - 1].percent)
  {
    ReplayShowsLast(t, a.events);
  }

  /** A file the bucket refused stays at the 30 per cent reported before the
      upload call. */
  lemma RefusedEntryProgress(config: Storage.Config, file: Storage.File, campText: string,
                             fileName: Option<string>, oracle: Storage.UploadOracle)
    requires config.Configured? && !oracle.reply.Stored?
    requires Storage.NeedsCompression(file.Size()) ==> oracle.compression.outcome.Produced?
    ensures var s := Settle(InitialTask(file), Storage.UploadAttempt(config, file, campText, fileName, oracle));
      s.stage == Error && s.progress == 30
  {
    var a := Storage.UploadAttempt(config, file, campText, fileName, oracle);
    Storage.UploadOutcome(config, file, campText, fileName, oracle);
    Storage.LastReport(config, file, campText, fileName, oracle);
    SettledEntry(InitialTask(file), a);
  }

  /** A file that failed to compress ends as `error` with the compression
      message, at the last percentage the library reported, or at the
      `compressing 0` report when it reported none. */
  lemma CompressionFailureEntry(config: Storage.Config, file: Storage.File, campText: string,
                                fileName: Option<string>, oracle: Storage.UploadOracle)
    requires config.Configured? && Storage.NeedsCompression(file.Size()) && oracle.compression.outcome.Failed?
    ensures var s := Settle(InitialTask(file), Storage.UploadAttempt(config, file, campText, fileName, oracle));
      var percents := oracle.compression.percents;
      s.stage == Error &&
      s.error == Some("Failed to compress image: " + MessageOr(oracle.compression.outcome.thrown, "Unknown error")) &&
      s.progress == if |percents| == 0 then 0 else percents[|percents| - 1]
  {
    var a := Storage.UploadAttempt(config, file, campText, fileName, oracle);
    Storage.CompressionFailureStopsUpload(config, file, campText, fileName, oracle);
    SettledEntry(InitialTask(file), a);
  }

  /** The name the panel passes for file `i`:
      `${Date.now()}-${i}.${file.name.split(".").pop()}`. The extension is
      neither lower-cased nor defaulted. */
  function PanelFileName(stamp: nat, index: nat, originalName: string): string
  {
    Decimal(stamp) + "-" + Decimal(index) + "." + AfterLastDot(originalName)
  }

  /** The length of the run of digits `s` starts with. */
  function DigitRun(s: string): (n: nat)
    ensures n <= |s| && AllDigits(s[..n])
    ensures n < |s| ==> !IsDigit(s[n])
  {
    if |s| > 0 && IsDigit(s[0]) then
      var n := 1 + DigitRun(s[1..]);
      assert s[..n] == [s[0]] + s[1..][..n - 1];
      n
    else 0
  }

  /** Digits followed by a non-digit: the run is exactly the digits. */
  lemma {:induction false} DigitRunOf(x: string, sep: char, rest: string)
    requires AllDigits(x) && !IsDigit(sep)
    ensures DigitRun(x + [sep] + rest) == |x|
  {
    if |x| > 0 {
      assert (x + [sep] + rest)[1..] == x[1..] + [sep] + rest;
      DigitRunOf(x[1..], sep, rest);
    }
  }

  /** Splitting `x + [sep] + rest` where `x` is all digits and `sep` is not a
      digit recovers `x` and `rest`. */
  lemma SplitAfterDigits(x: string, sep: char, rest: string, y: string, sep': char, rest': string)
    requires AllDigits(x) && AllDigits(y) && !IsDigit(sep) && !IsDigit(sep')
    requires x + [sep] + rest == y + [sep'] + rest'
    ensures x == y && sep == sep' && rest == rest'
  {
    var s := x + [sep] + rest;
    DigitRunOf(x, sep, rest);
    DigitRunOf(y, sep', rest');
    assert x == s[..|x|] == y;
    assert rest == s[|x| + 1..] == rest';
  }

  /** Two names the panel generates are equal only for the same clock reading,
      index and extension: within a batch, names never collide, even when two
      files are named in the same millisecond. */
  lemma {:induction false} PanelFileNamesDistinct(stamp: nat, i: nat, name: string, stamp': nat, j: nat, name': string)
    requires PanelFileName(stamp, i, name) == PanelFileName(stamp', j, name')
    ensures stamp == stamp' && i == j && AfterLastDot(name) == AfterLastDot(name')
  {
    DecimalDigits(stamp);
    DecimalDigits(stamp');
    DecimalDigits(i);
    DecimalDigits(j);
    var rest := Decimal(i) + "." + AfterLastDot(name);
    var rest' := Decimal(j) + "." + AfterLastDot(name');
    assert PanelFileName(stamp, i, name) == Decimal(stamp) + ['-'] + rest;
    assert PanelFileName(stamp', j, name') == Decimal(stamp') + ['-'] + rest';
    SplitAfterDigits(Decimal(stamp), '-', rest, Decimal(stamp'), '-', rest');
    DecimalInjective(stamp, stamp');
    assert rest == Decimal(i) + ['.'] + AfterLastDot(name);
    assert rest' == Decimal(j) + ['.'] + AfterLastDot(name');
    SplitAfterDigits(Decimal(i), '.', AfterLastDot(name), Decimal(j), '.', AfterLastDot(name'));
    DecimalInjective(i, j);
  }

  /** The extension `uploadCampImage` would read back from a panel name is the
      original file's last segment, with its case kept. */
  lemma PanelFileNameExtension(stamp: nat, index: nat, originalName: string)
    ensures AfterLastDot(PanelFileName(stamp, index, originalName)) == AfterLastDot(originalName)
  {
    LastSegment(originalName);
    AfterLastDotOfJoin(Decimal(stamp) + "-" + Decimal(index), AfterLastDot(originalName));
  }

  /** The length `Array.from(files).slice(0, end)` keeps of `given` files:
      `end` itself when it is between 0 and `given`, and a negative `end`
      counts back from the last file. */
  function SliceLength(given: nat, end: int): nat
  {
    if end < 0 then (if given + end > 0 then given + end else 0)
    else if end < given then end
    else given
  }

  /** `Array.from(files).slice(0, maxImages - images.length)` */
  function AcceptedFiles(files: seq<Storage.File>, maxImages: int, current: nat): seq<Storage.File>
  {
    files[..SliceLength(|files|, maxImages - current)]
  }

  /** With room left, the batch is cut to the free slots and files that fit
      are all taken; a full list takes nothing; a list already over capacity
      by `d` still takes all files but the last `d`. */
  lemma AcceptedCount(files: seq<Storage.File>, maxImages: int, current: nat)
    ensures var n := |AcceptedFiles(files, maxImages, current)|;
      AcceptedFiles(files, maxImages, current) == files[..n] &&
      (current <= maxImages ==> n <= maxImages - current && (|files| <= maxImages - current ==> n == |files|)) &&
      (current == maxImages ==> n == 0) &&
      (current > maxImages ==> n == if |files| > current - maxImages then |files| - (current - maxImages) else 0)
  {
  }

  /** What the outside world answers while file `i` of a batch is handled:
      the clock reading used in its name and what the storage service sees. */
  datatype FileEnv = FileEnv(stamp: nat, upload: Storage.UploadOracle)

  /** One `handleUpload` batch after its guards: the accepted files and what
      the world answers for each index. */
  datatype Batch = Batch(config: Storage.Config, campText: string, files: seq<Storage.File>, env: nat -> FileEnv)

  function FileAttempt(b: Batch, i: nat): Storage.Attempt
    requires i < |b.files|
  {
    Storage.UploadAttempt(b.config, b.files[i], b.campText,
                          Some(PanelFileName(b.env(i).stamp, i, b.files[i].name)), b.env(i).upload)
  }

  /** The course of each of the first `n` files of the batch, in file order. */
  function AttemptsUpTo(b: Batch, n: nat): (r: seq<Storage.Attempt>)
    requires n <= |b.files|
    ensures |r| == n
  {
    if n == 0 then [] else AttemptsUpTo(b, n - 1) + [FileAttempt(b, n - 1)]
  }

  /** The course of each file of the batch, in file order. */
  function Attempts(b: Batch): (r: seq<Storage.Attempt>)
    ensures |r| == |b.files|
  {
    AttemptsUpTo(b, |b.files|)
  }

  /** Entry `k` of the batch's attempts is file `k`'s course. */
  lemma {:induction false} AttemptAt(b: Batch, n: nat, k: nat)
    requires k < n <= |b.files|
    ensures AttemptsUpTo(b, n)[k] == FileAttempt(b, k)
  {
    if k < n - 1 {
      AttemptAt(b, n - 1, k);
    }
  }

  /** Every entry of the batch's attempts is its file's course. */
  lemma AttemptsAgree(b: Batch)
    ensures forall k {:trigger FileAttempt(b, k)} :: 0 <= k < |b.files| ==> Attempts(b)[k] == FileAttempt(b, k)
  {
    forall k | 0 <= k < |b.files|
      ensures Attempts(b)[k] == FileAttempt(b, k)
    {
      AttemptAt(b, |b.files|, k);
    }
  }

  /** `newUrls` after the given files: the URL of every stored file, in file
      order. */
  function NewUrls(attempts: seq<Storage.Attempt>): seq<string>
  {
    if |attempts| == 0 then []
    else
      var a := attempts[|attempts| - 1];
      NewUrls(attempts[..|attempts| - 1]) + if Storage.Succeeded(a) then [a.outcome.value.url] else []
  }

  /** One more file adds its URL when it was stored and its upload call
      when it reached the bucket. */
  lemma AttemptsSnoc(attempts: seq<Storage.Attempt>, a: Storage.Attempt)
    ensures NewUrls(attempts + [a]) == NewUrls(attempts) + if Storage.Succeeded(a) then [a.outcome.value.url] else []
    ensures UploadCalls(attempts + [a]) == UploadCalls(attempts) + CallOf(a)
  {
    assert (attempts + [a])[..|attempts|] == attempts;
  }

  lemma AppendAssoc<T>(x: seq<T>, y: seq<T>, z: seq<T>)
    ensures x + y + z == x + (y + z)
  {
  }

  /** How many of the given files were not stored. */
  function Failures(attempts: seq<Storage.Attempt>): nat
  {
    if |attempts| == 0 then 0
    else Failures(attempts[..|attempts| - 1]) + if Storage.Succeeded(attempts[|attempts| - 1]) then 0 else 1
  }

  /** One URL per stored file: the URLs and the failures together account for
      every file. */
  lemma {:induction false} NewUrlsCount(attempts: seq<Storage.Attempt>)
    ensures |NewUrls(attempts)| + Failures(attempts) == |attempts|
  {
    if |attempts| > 0 {
      NewUrlsCount(attempts[..|attempts| - 1]);
    }
  }

  /** No URL is collected exactly when no file was stored. */
  lemma {:induction false} NoUrlsIffAllFailed(attempts: seq<Storage.Attempt>)
    ensures |NewUrls(attempts)| == 0 <==> forall k :: 0 <= k < |attempts| ==> !Storage.Succeeded(attempts[k])
  {
    if |attempts| > 0 {
      var init := attempts[..|attempts| - 1];
      NoUrlsIffAllFailed(init);
      assert forall k :: 0 <= k < |init| ==> init[k] == attempts[k];
    }
  }

  /** When every file is stored, URL `k` belongs to file `k`. */
  lemma {:induction false} AllStored(attempts: seq<Storage.Attempt>)
    requires forall k :: 0 <= k < |attempts| ==> Storage.Succeeded(attempts[k])
    ensures |NewUrls(attempts)| == |attempts|
    ensures forall k :: 0 <= k < |attempts| ==>
      Storage.Succeeded(attempts[k]) && NewUrls(attempts)[k] == attempts[k].outcome.value.url
  {
    if |attempts| > 0 {
      var init := attempts[..|attempts| - 1];
      assert forall k :: 0 <= k < |init| ==> init[k] == attempts[k];
      AllStored(init);
    }
  }

  /** Failures counts exactly the files that were not stored: with every file
      but `k` stored, it is one when `k` is among them and zero otherwise. */
  lemma {:induction false} FailuresSingle(attempts: seq<Storage.Attempt>, k: nat)
    requires forall j :: 0 <= j < |attempts| && j != k ==> Storage.Succeeded(attempts[j])
    requires k < |attempts| ==> !Storage.Succeeded(attempts[k])
    ensures Failures(attempts) == if k < |attempts| then 1 else 0
  {
    if |attempts| > 0 {
      var init := attempts[..|attempts| - 1];
      assert forall j :: 0 <= j < |init| ==> init[j] == attempts[j];
      FailuresSingle(init, k);
    }
  }

  /** When exactly file `k` fails, every other file still contributes its
      URL: one failure costs exactly one URL. */
  lemma OneFailure(attempts: seq<Storage.Attempt>, k: nat)
    requires k < |attempts| && !Storage.Succeeded(attempts[k])
    requires forall j :: 0 <= j < |attempts| && j != k ==> Storage.Succeeded(attempts[j])
    ensures |NewUrls(attempts)| == |attempts| - 1
  {
    FailuresSingle(attempts, k);
    NewUrlsCount(attempts);
  }

  /** A list within capacity stays within capacity after a batch. */
  lemma CapacityKept(config: Storage.Config, campText: string, files: seq<Storage.File>, env: nat -> FileEnv,
                     maxImages: int, current: nat)
    requires current <= maxImages
    ensures current + |NewUrls(Attempts(Batch(config, campText, AcceptedFiles(files, maxImages, current), env)))|
            <= maxImages
  {
    NewUrlsCount(Attempts(Batch(config, campText, AcceptedFiles(files, maxImages, current), env)));
    AcceptedCount(files, maxImages, current);
  }

  /** An effect the panel has on the world outside it, in the order made. */
  datatype Effect =
    | UploadCall(request: Storage.UploadRequest)  // bucket `upload`
    | RemoveCall(path: string)                    // bucket `remove([path])`
    | ImagesChanged(images: seq<string>)          // `onImagesChange(images)`
    | RowUpdate(id: int, imgSrc: seq<string>)     // `update({ img_src }).eq("id", id)` on `camps`

  /** The upload call a file made, if it reached the bucket. */
  function CallOf(a: Storage.Attempt): seq<Effect>
  {
    if a.request.Some? then [UploadCall(a.request.value)] else []
  }

  /** The upload calls the given files made, in file order. */
  function UploadCalls(attempts: seq<Storage.Attempt>): seq<Effect>
  {
    if |attempts| == 0 then []
    else UploadCalls(attempts[..|attempts| - 1]) + CallOf(attempts[|attempts| - 1])
  }

  /** Files that never reach the bucket and are never stored leave no call
      and no URL behind. */
  lemma {:induction false} NoRequestsNoCalls(attempts: seq<Storage.Attempt>)
    requires forall k :: 0 <= k < |attempts| ==> attempts[k].request.None? && !Storage.Succeeded(attempts[k])
    ensures |UploadCalls(attempts)| == 0 && |NewUrls(attempts)| == 0
  {
    if |attempts| > 0 {
      var init := attempts[..|attempts| - 1];
      assert forall k :: 0 <= k < |init| ==> init[k] == attempts[k];
      NoRequestsNoCalls(init);
    }
  }

  /** When the storage client cannot be created, no file reaches the bucket
      and no URL is collected. */
  lemma UnconfiguredBatchMakesNoCalls(b: Batch)
    requires b.config.Unconfigured?
    ensures |UploadCalls(Attempts(b))| == 0 && |NewUrls(Attempts(b))| == 0
  {
    var attempts := Attempts(b);
    forall k | 0 <= k < |attempts|
      ensures attempts[k].request.None? && !Storage.Succeeded(attempts[k])
    {
      AttemptAt(b, |b.files|, k);
      Storage.UploadOutcome(b.config, b.files[k], b.campText,
                            Some(PanelFileName(b.env(k).stamp, k, b.files[k].name)), b.env(k).upload);
    }
    NoRequestsNoCalls(attempts);
  }

  /** `saveImagesToDatabase`: one update of `img_src` on row `dbRecordId`,
      unless the id is missing or 0; a client that cannot be created is caught
      and writes nothing. */
  function SaveEffects(config: Storage.Config, dbRecordId: Option<int>, images: seq<string>): seq<Effect>
  {
    if dbRecordId.None? || dbRecordId.value == 0 || config.Unconfigured? then []
    else [RowUpdate(dbRecordId.value, images)]
  }

  /** `images.filter((_, i) => i !== index)`: every element but the one at
      `index`, in order; an index outside the list filters nothing out. */
  function Without<T>(s: seq<T>, index: int): (r: seq<T>)
    ensures 0 <= index < |s| ==> |r| == |s| - 1
    ensures 0 <= index < |s| ==> forall k :: 0 <= k < |r| ==> r[k] == if k < index then s[k] else s[k + 1]
    ensures !(0 <= index < |s|) ==> r == s
  {
    if 0 <= index < |s| then s[..index] + s[index + 1..] else s
  }

  /** Removal drops exactly one occurrence of the removed image. */
  lemma WithoutMultiset<T>(s: seq<T>, index: int)
    requires 0 <= index < |s|
    ensures multiset(Without(s, index)) + multiset{s[index]} == multiset(s)
  {
    var front, back := s[..index], s[index + 1..];
    assert s == front + [s[index]] + back;
    calc {
      multiset(s);
      multiset(front + [s[index]] + back);
      multiset(front) + multiset{s[index]} + multiset(back);
      multiset(front + back) + multiset{s[index]};
    }
  }

  /** The upload panel as the camp form mounts it: its props, its state, and a
      log of the effects it has had. */
  class ImageUploadPanel {
    const campText: string           // the `campId` prop, as its decimal text
    const dbRecordId: Option<int>
    const maxImages: int
    const config: Storage.Config
    var images: seq<string>          // the `images` prop, which the form updates on `onImagesChange`
    var uploading: bool
    var uploadProgress: seq<Task>
    ghost var effects: seq<Effect>

    /** Mounting the panel; a `maxImages` prop that is not given defaults to 10. */
    constructor (campText: string, dbRecordId: Option<int>, images: seq<string>, maxImages: Option<int>,
                 config: Storage.Config)
      ensures this.campText == campText && this.dbRecordId == dbRecordId
      ensures this.maxImages == if maxImages.Some? then maxImages.value else 10
      ensures this.config == config && this.images == images
      ensures !uploading && uploadProgress == [] && effects == []
    {
      this.campText := campText;
      this.dbRecordId := dbRecordId;
      this.maxImages := if maxImages.Some? then maxImages.value else DefaultMaxImages;
      this.config := config;
      this.images := images;
      uploading := false;
      uploadProgress := [];
      effects := [];
    }

    /** `saveImagesToDatabase(newImages)` */
    method SaveImagesToDatabase(newImages: seq<string>)
      modifies this`effects
      ensures effects == old(effects) + SaveEffects(config, dbRecordId, newImages)
    {
      if dbRecordId.None? || dbRecordId.value == 0 {
        return;
      }
      if config.Unconfigured? {
        return;
      }
      effects := effects + [RowUpdate(dbRecordId.value, newImages)];
    }

    /** The progress callback handed to `uploadCampImage` for file `i`, called
      once per report in the order reported; each call rewrites entry `i` only. */
    method ReportProgress(i: nat, events: seq<Storage.Progress>)
      requires i < |uploadProgress|
      modifies this`uploadProgress
      ensures uploadProgress == old(uploadProgress)[i := Replay(old(uploadProgress)[i], events)]
    {
      var k := 0;
      while k < |events|
        invariant 0 <= k <= |events|
        invariant uploadProgress == old(uploadProgress)[i := Replay(old(uploadProgress)[i], events[..k])]
      {
        assert events[..k + 1][..k] == events[..k];
        uploadProgress := PatchEntry(uploadProgress, i, Report(events[k].phase, events[k].percent));
        k := k + 1;
      }
      assert events[..k] == events;
    }

    /** `handleUpload(files)` up to the point where it schedules the reset. */
    method HandleUpload(files: Option<seq<Storage.File>>, env: nat -> FileEnv)
      modifies this`images, this`uploading, this`uploadProgress, this`effects
      ensures files.None? || |files.value| == 0 || campText == "0" ||
              |AcceptedFiles(files.value, maxImages, |old(images)|)| == 0 ==>
        images == old(images) && uploading == old(uploading) &&
        uploadProgress == old(uploadProgress) && effects == old(effects)
      ensures !(files.None? || |files.value| == 0 || campText == "0" ||
                |AcceptedFiles(files.value, maxImages, |old(images)|)| == 0) ==>
        var b := Batch(config, campText, AcceptedFiles(files.value, maxImages, |old(images)|), env);
        var attempts := Attempts(b);
        var urls := NewUrls(attempts);
        uploading &&
        |uploadProgress| == |b.files| &&
        (forall k :: 0 <= k < |b.files| ==> uploadProgress[k] == Settle(InitialTask(b.files[k]), attempts[k])) &&
        images == old(images) + urls &&
        effects == old(effects) + UploadCalls(attempts) +
                   (if |urls| == 0 then [] else [ImagesChanged(images)] + SaveEffects(config, dbRecordId, images))
    {
      if files.None? || |files.value| == 0 {
        return;
      }
      if campText == "0" {
        return;
      }
      var filesToUpload := AcceptedFiles(files.value, maxImages, |images|);
      if |filesToUpload| == 0 {
        return;
      }
      uploading := true;
      var b := Batch(config, campText, filesToUpload, env);
      AttemptsAgree(b);
      var newUrls := UploadBatch(b, Attempts(b));
      if |newUrls| > 0 {
        var updatedImages := images + newUrls;
        images := updatedImages;
        effects := effects + [ImagesChanged(updatedImages)];
        SaveImagesToDatabase(updatedImages);
      }
    }

    /** The upload loop of `handleUpload`: fresh entries for the batch, then
      each file in order, one after another; the URLs of the stored files are
      collected in file order. */
    method UploadBatch(b: Batch, ghost attempts: seq<Storage.Attempt>) returns (newUrls: seq<string>)
      requires b.config == config && b.campText == campText
      requires |attempts| == |b.files|
      requires forall k {:trigger FileAttempt(b, k)} :: 0 <= k < |b.files| ==> attempts[k] == FileAttempt(b, k)
      modifies this`uploadProgress, this`effects
      ensures |uploadProgress| == |b.files|
      ensures forall k :: 0 <= k < |b.files| ==> uploadProgress[k] == Settle(InitialTask(b.files[k]), attempts[k])
      ensures newUrls == NewUrls(attempts)
      ensures effects == old(effects) + UploadCalls(attempts)
    {
      StartTasks(b.files);
      newUrls := [];
      var i := 0;
      while i < |b.files|
        invariant 0 <= i <= |b.files|
        invariant |uploadProgress| == |b.files|
        invariant forall k :: 0 <= k < i ==> uploadProgress[k] == Settle(InitialTask(b.files[k]), attempts[k])
        invariant forall k :: i <= k < |b.files| ==> uploadProgress[k] == InitialTask(b.files[k])
        invariant newUrls == NewUrls(attempts[..i])
        invariant effects == old(effects) + UploadCalls(attempts[..i])
      {
        ghost var a := attempts[i];
        var url := UploadFile(b, i, attempts);
        assert attempts[..i + 1] == attempts[..i] + [a];
        AttemptsSnoc(attempts[..i], a);
        AppendAssoc(old(effects), UploadCalls(attempts[..i]), CallOf(a));
        if url.Some? {
          newUrls := newUrls + [url.value];
        }
        i := i + 1;
      }
      assert attempts[..i] == attempts;
    }

    /** One turn of the upload loop: file `i` goes through `uploadCampImage`
      under its generated name, its entry follows the reports and then shows
      the outcome, and the URL is handed back when the file was stored. */
    method UploadFile(b: Batch, i: nat, ghost attempts: seq<Storage.Attempt>) returns (url: Option<string>)
      requires b.config == config && b.campText == campText
      requires i < |b.files| == |attempts| && i < |uploadProgress|
      requires forall k {:trigger FileAttempt(b, k)} :: 0 <= k < |b.files| ==> attempts[k] == FileAttempt(b, k)
      modifies this`uploadProgress, this`effects
      ensures var a := attempts[i];
        uploadProgress == old(uploadProgress)[i := Settle(old(uploadProgress)[i], a)] &&
        effects == old(effects) + CallOf(a) &&
        url == if Storage.Succeeded(a) then Some(a.outcome.value.url) else None
    {
      assert attempts[i] == FileAttempt(b, i);
      var file := b.files[i];
      var name := PanelFileName(b.env(i).stamp, i, file.name);
      var outcome, events, request := Storage.UploadCampImage(config, file, campText, Some(name), b.env(i).upload);
      if request.Some? {
        effects := effects + [UploadCall(request.value)];
      }
      ReportProgress(i, events);
      match outcome {
        case Returned(Uploaded(u, _)) =>
          url := Some(u);
          uploadProgress := PatchEntry(uploadProgress, i, MarkDone);
        case Returned(UploadError(message)) =>
          url := None;
          uploadProgress := PatchEntry(uploadProgress, i, MarkError(message));
        case Raised(thrown) =>
          url := None;
          uploadProgress := PatchEntry(uploadProgress, i, MarkError(MessageOr(thrown, "Upload failed")));
      }
    }

    /** `setUploadProgress(filesToUpload.map(...))`: one entry per accepted
      file, in file order, uploading at 0 with that file's name and size. */
    method StartTasks(filesToUpload: seq<Storage.File>)
      modifies this`uploadProgress
      ensures |uploadProgress| == |filesToUpload|
      ensures forall k :: 0 <= k < |filesToUpload| ==>
        uploadProgress[k] == Task(filesToUpload[k].name, Uploading, 0, None, filesToUpload[k].Size())
    {
      uploadProgress := seq(|filesToUpload|, k requires 0 <= k < |filesToUpload| => InitialTask(filesToUpload[k]));
    }

    /** The timer `handleUpload` sets: after the settle delay the progress
      list is cleared and the panel accepts uploads again. */
    method ClearProgress()
      modifies this`uploadProgress, this`uploading
      ensures uploadProgress == [] && !uploading
    {
      uploadProgress := [];
      uploading := false;
    }

    /** `handleRemove(index)`: the storage delete is attempted first; whatever
      it returns, the image at `index` is dropped, the form is told, and the
      shorter list is saved. An index outside the list names no image: the
      delete fails inside its `try` and the list keeps every image. A client
      that cannot be created rejects before anything changes. */
    method HandleRemove(index: int, pathnameOf: string -> Option<string>, reply: Storage.RemoveReply)
      modifies this`images, this`effects
      ensures var removed := if config.Configured? && 0 <= index < |old(images)|
                             then Storage.ObjectPathOf(old(images)[index], pathnameOf) else None;
        var removal := if removed.Some? then [RemoveCall(removed.value)] else [];
        (config.Unconfigured? ==> images == old(images) && effects == old(effects)) &&
        (config.Configured? ==>
          images == Without(old(images), index) &&
          effects == old(effects) + removal + [ImagesChanged(images)] + SaveEffects(config, dbRecordId, images))
    {
      var deleted: Settled<bool>;
      var removed: Option<string>;
      if 0 <= index < |images| {
        deleted, removed := Storage.DeleteCampImage(config, images[index], pathnameOf, reply);
      } else if config.Unconfigured? {
        deleted, removed := Raised(ErrorObject(config.reason)), None;
      } else {
        deleted, removed := Returned(false), None;
      }
      if removed.Some? {
        effects := effects + [RemoveCall(removed.value)];
      }
      if deleted.Raised? {
        return;
      }
      var newImages := Without(images, index);
      images := newImages;
      effects := effects + [ImagesChanged(newImages)];
      SaveImagesToDatabase(newImages);
    }
  }
}
