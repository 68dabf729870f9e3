/** The per-file storage service of the camp image pipeline: folder naming,
    object paths and public URLs, the compression decision, one image upload
    with its progress reports, deletion by public URL, and listing.

    Everything the service asks of the outside world is an argument here:
    whether the storage client can be created (`Config`), what the
    compression library reports and returns, what the bucket answers to an
    upload, remove or list, the clock, and the URL parser. */
module Storage {
  import opened Common

  /** BUCKET_NAME */
  const Bucket := "camps"
  /** MAX_FILE_SIZE_MB, the bucket's per-object limit in megabytes */
  const MaxFileSizeMB := 5
  /** The part of a public URL's pathname in front of the object path */
  const PublicPrefix := "/storage/v1/object/public/" + Bucket + "/"

  /** A browser `File`: its name and its bytes; `size` is the byte count. */
  datatype File = File(name: string, bytes: seq<bv8>)
  {
    function Size(): nat { |bytes| }
  }

  /** Whether the storage client can be created. `createClient()` throws an
      `Error` when the project URL or key is missing; otherwise the client
      serves public URLs under the project URL. */
  datatype Config = Configured(projectUrl: string) | Unconfigured(reason: string)

  /** `getCampFolderName`: the camp id's decimal text with its first `.`
      (and only that one) replaced by `-`. */
  function CampFolderName(campText: string): (r: string)
    ensures |r| == |campText|
    ensures '.' !in campText ==> r == campText
  {
    if campText == [] then []
    else if campText[0] == '.' then "-" + campText[1..]
    else [campText[0]] + CampFolderName(campText[1..])
  }

  /** What `replace(".", "-")` puts at position `k` of `s`. */
  function ReplacedAt(s: string, k: nat): char
    requires k < |s|
  {
    if s[k] == '.' && '.' !in s[..k] then '-' else s[k]
  }

  /** A leading `.` is the first one: every later character is copied. */
  lemma LeadingDotChar(s: string, k: nat)
    requires 1 <= k < |s| && s[0] == '.'
    ensures ReplacedAt(s, k) == s[k]
  {
    assert s[..k][0] == '.';
  }

  /** Past a first character that is not a `.`, position `k` of `s` is
      replaced as position `k - 1` of the rest. */
  lemma ShiftedChar(s: string, k: nat)
    requires 1 <= k < |s| && s[0] != '.'
    ensures ReplacedAt(s, k) == ReplacedAt(s[1..], k - 1)
  {
    assert s[..k] == [s[0]] + s[1..][..k - 1];
  }

  /** Character by character: the first `.` of the id text becomes `-`, and
      every other character, later dots included, is copied. */
  lemma {:induction false} FolderNameChars(campText: string)
    ensures var r := CampFolderName(campText);
      forall k :: 0 <= k < |campText| ==>
        r[k] == (if campText[k] == '.' && '.' !in campText[..k] then '-' else campText[k])
  {
    if campText != [] {
      var r := CampFolderName(campText);
      forall k | 0 <= k < |campText|
        ensures r[k] == ReplacedAt(campText, k)
      {
        if k > 0 && campText[0] == '.' {
          LeadingDotChar(campText, k);
        } else if k > 0 {
          FolderNameChars(campText[1..]);
          ShiftedChar(campText, k);
        }
      }
    }
  }

  /** Camp 54 keeps its folder; camp 53.5 goes to `53-5`; a text with two
      dots has only the first replaced. */
  lemma FolderNameExamples()
    ensures CampFolderName("54") == "54"
    ensures CampFolderName("53.5") == "53-5"
    ensures CampFolderName("1.2.3") == "1-2.3"
  {
    assert "53.5"[1..] == "3.5" && "3.5"[1..] == ".5";
    assert "1.2.3"[1..] == ".2.3";
  }

  /** `getCampImageUrl`: the public URL the client derives from an object path. */
  function CampImageUrl(projectUrl: string, path: string): string
  {
    projectUrl + PublicPrefix + path
  }

  /** `main/<folder>/<name>` */
  function StoragePath(folder: string, name: string): string
  {
    "main/" + folder + "/" + name
  }

  /** `file.name.split(".").pop()?.toLowerCase() || "jpg"` */
  function Extension(name: string): (ext: string)
    ensures 1 <= |ext| && '.' !in ext
    ensures forall k :: 0 <= k < |ext| ==> !('A' <= ext[k] <= 'Z')
    ensures |AfterLastDot(name)| == 0 ==> ext == "jpg"
    ensures |AfterLastDot(name)| > 0 ==> ext == ToLower(AfterLastDot(name))
  {
    LastSegment(name);
    var segment := ToLower(AfterLastDot(name));
    if |segment| == 0 then "jpg" else segment
  }

  /** `fileName || `${Date.now()}.${ext}``: the caller's name unless it is
      missing or empty, else the clock's reading and the file's extension. */
  function ObjectName(fileName: Option<string>, originalName: string, now: nat): (name: string)
    ensures |name| > 0
    ensures fileName.Some? && |fileName.value| > 0 ==> name == fileName.value
  {
    if fileName.Some? && |fileName.value| > 0 then fileName.value
    else Decimal(now) + "." + Extension(originalName)
  }

  /** A generated name is the clock's digits, a `.`, and the extension, so
      reading its extension back with `split(".").pop()` gives that extension. */
  lemma GeneratedName(fileName: Option<string>, originalName: string, now: nat)
    requires fileName.None? || fileName.value == ""
    ensures var name := ObjectName(fileName, originalName, now);
      var ext := Extension(originalName);
      AfterLastDot(name) == ext && |name| == |Decimal(now)| + 1 + |ext| &&
      name[..|Decimal(now)|] == Decimal(now) && name[|Decimal(now)|] == '.'
  {
    AfterLastDotOfJoin(Decimal(now), Extension(originalName));
  }

  /** `file.size / (1024 * 1024) > MAX_FILE_SIZE_MB`, decided on whole bytes. */
  function NeedsCompression(size: nat): (b: bool)
    ensures b <==> (size as real) / (1024.0 * 1024.0) > MaxFileSizeMB as real
  {
    size > MaxFileSizeMB * 1024 * 1024
  }

  /** What the compression library does when it is called: the percentages it
      reports, then the file it produces or what it throws. */
  datatype CompressionOutcome = Produced(file: File) | Failed(thrown: Thrown)
  datatype CompressionRun = CompressionRun(percents: seq<int>, outcome: CompressionOutcome)

  /** `compressImage`: the file and the percentages passed to its progress
      callback. A file within the limit comes back as it is and the library is
      not called; a library failure becomes an `Error` naming the cause. */
  function CompressImage(file: File, run: CompressionRun): (c: (Settled<File>, seq<int>))
    ensures !NeedsCompression(file.Size()) ==> c == (Returned(file), [])
    ensures NeedsCompression(file.Size()) ==> c.1 == run.percents
    ensures NeedsCompression(file.Size()) && run.outcome.Produced? ==> c.0 == Returned(run.outcome.file)
    ensures c.0.Raised? <==> NeedsCompression(file.Size()) && run.outcome.Failed?
    ensures c.0.Raised? ==>
      c.0.thrown == ErrorObject("Failed to compress image: " + MessageOr(run.outcome.thrown, "Unknown error"))
  {
    if !NeedsCompression(file.Size()) then (Returned(file), [])
    else match run.outcome
      case Produced(compressed) => (Returned(compressed), run.percents)
      case Failed(thrown) =>
        (Raised(ErrorObject("Failed to compress image: " + MessageOr(thrown, "Unknown error"))), run.percents)
  }

  /** The stage named in a progress report. */
  datatype Phase = Compressing | Uploading
  datatype Progress = Progress(phase: Phase, percent: int)

  /** What the bucket answers to `upload`: no error, an error object, or a throw. */
  datatype UploadReply = Stored | Rejected(message: string) | Threw(thrown: Thrown)

  /** Everything outside the code that one `uploadCampImage` call consults. */
  datatype UploadOracle = UploadOracle(now: nat, compression: CompressionRun, reply: UploadReply)

  /** `{ url, path }` or `{ error }` */
  datatype UploadResult = Uploaded(url: string, path: string) | UploadError(error: string)

  /** The arguments of the one `upload` call made to the bucket. */
  datatype UploadRequest = UploadRequest(path: string, file: File)

  /** The observable course of one upload: how it settles, the progress reports
      in the order they are made, and the upload request if one is made. */
  datatype Attempt = Attempt(outcome: Settled<UploadResult>, events: seq<Progress>, request: Option<UploadRequest>)

  predicate Succeeded(a: Attempt)
  {
    a.outcome.Returned? && a.outcome.value.Uploaded?
  }

  function Percents(phase: Phase, percents: seq<int>): (events: seq<Progress>)
    ensures |events| == |percents|
    ensures forall k :: 0 <= k < |events| ==> events[k] == Progress(phase, percents[k])
  {
    if percents == [] then [] else [Progress(phase, percents[0])] + Percents(phase, percents[1..])
  }

  /** The reports made around compression: `compressing 0`, the library's
      percentages, and `compressing 100` once it produced a file; none for a
      file within the limit. */
  function CompressionReports(large: bool, percents: seq<int>, produced: bool): (r: seq<Progress>)
    ensures forall k :: 0 <= k < |r| ==> r[k].phase == Compressing
    ensures large ==> |r| == 1 + |percents| + (if produced then 1 else 0) && r[0] == Progress(Compressing, 0)
    ensures large ==> forall k :: 0 <= k < |percents| ==> r[1 + k] == Progress(Compressing, percents[k])
    ensures large && produced ==> r[|r| - 1] == Progress(Compressing, 100)
    ensures !large ==> |r| == 0
  {
    if large then [Progress(Compressing, 0)] + Percents(Compressing, percents) + (if produced then [Progress(Compressing, 100)] else [])
    else []
  }

  /** The reports made around the upload call: `uploading 0` and
      `uploading 30` before it, `uploading 100` only when it stored the file. */
  function UploadReports(reply: UploadReply): (r: seq<Progress>)
    ensures forall k :: 0 <= k < |r| ==> r[k].phase == Uploading
    ensures |r| == if reply.Stored? then 3 else 2
    ensures r[0] == Progress(Uploading, 0) && r[1] == Progress(Uploading, 30)
    ensures Progress(Uploading, 100) in r <==> reply.Stored?
    ensures r[|r| - 1] == if reply.Stored? then Progress(Uploading, 100) else Progress(Uploading, 30)
  {
    [Progress(Uploading, 0), Progress(Uploading, 30)] + (if reply.Stored? then [Progress(Uploading, 100)] else [])
  }

  /** The course of `uploadCampImage(file, campId, fileName, onProgress)`. */
  function UploadAttempt(config: Config, file: File, campText: string, fileName: Option<string>,
                         oracle: UploadOracle): Attempt
  {
    match config
    case Unconfigured(reason) => Attempt(Raised(ErrorObject(reason)), [], None)
    case Configured(projectUrl) =>
      var large := NeedsCompression(file.Size());
      var (processed, percents) := CompressImage(file, oracle.compression);
      var compressing := CompressionReports(large, percents, processed.Returned?);
      if processed.Raised? then
        Attempt(Returned(UploadError(MessageOr(processed.thrown, "Upload failed"))), compressing, None)
      else
        var path := StoragePath(CampFolderName(campText), ObjectName(fileName, file.name, oracle.now));
        var request := Some(UploadRequest(path, processed.value));
        var events := compressing + UploadReports(oracle.reply);
        match oracle.reply
        case Stored => Attempt(Returned(Uploaded(CampImageUrl(projectUrl, path), path)), events, request)
        case Rejected(message) => Attempt(Returned(UploadError(message)), events, request)
        case Threw(thrown) => Attempt(Returned(UploadError(MessageOr(thrown, "Upload failed"))), events, request)
  }

  /** How one upload settles: it rejects only when the client cannot be
      created; it succeeds exactly when the file needed no compression or was
      compressed, and the bucket stored it; the request carries the original
      file unless it was over the limit, under `main/<folder>/<name>`; and a
      bucket error or throw comes back as `{ error }`. */
  lemma UploadOutcome(config: Config, file: File, campText: string, fileName: Option<string>, oracle: UploadOracle)
    ensures var a := UploadAttempt(config, file, campText, fileName, oracle);
      a.outcome.Raised? <==> config.Unconfigured?
    ensures var a := UploadAttempt(config, file, campText, fileName, oracle);
      Succeeded(a) <==>
      config.Configured? && oracle.reply.Stored? &&
      (NeedsCompression(file.Size()) ==> oracle.compression.outcome.Produced?)
    ensures var a := UploadAttempt(config, file, campText, fileName, oracle);
      a.request.Some? <==>
      config.Configured? && (NeedsCompression(file.Size()) ==> oracle.compression.outcome.Produced?)
    ensures var a := UploadAttempt(config, file, campText, fileName, oracle);
      a.request.Some? ==>
      a.request.value.path == "main/" + CampFolderName(campText) + "/" + ObjectName(fileName, file.name, oracle.now) &&
      a.request.value.file == (if NeedsCompression(file.Size()) then oracle.compression.outcome.file else file)
    ensures var a := UploadAttempt(config, file, campText, fileName, oracle);
      Succeeded(a) ==>
      a.outcome.value.path == a.request.value.path &&
      a.outcome.value.url == CampImageUrl(config.projectUrl, a.outcome.value.path)
    ensures var a := UploadAttempt(config, file, campText, fileName, oracle);
      a.request.Some? && oracle.reply.Rejected? ==> a.outcome == Returned(UploadError(oracle.reply.message))
    ensures var a := UploadAttempt(config, file, campText, fileName, oracle);
      a.request.Some? && oracle.reply.Threw? ==>
      a.outcome == Returned(UploadError(MessageOr(oracle.reply.thrown, "Upload failed")))
  {
  }

  /** Step 1 of `uploadCampImage`: a file over the limit goes through
      `compressImage`, framed by `compressing 0` and `compressing 100`; any
      other file is kept as it is, with no report. */
  method CompressIfNeeded(file: File, run: CompressionRun) returns (processed: Settled<File>, events: seq<Progress>)
    ensures processed == CompressImage(file, run).0
    ensures events == CompressionReports(NeedsCompression(file.Size()), CompressImage(file, run).1, processed.Returned?)
  {
    processed, events := Returned(file), [];
    if NeedsCompression(file.Size()) {
      events := events + [Progress(Compressing, 0)];
      var (compressed, percents) := CompressImage(file, run);
      events := events + Percents(Compressing, percents);
      processed := compressed;
      assert events == [Progress(Compressing, 0)] + Percents(Compressing, percents);
      if compressed.Raised? {
        return;
      }
      events := events + [Progress(Compressing, 100)];
    }
  }

  /** `uploadCampImage`, step by step: it compresses when the file is over the
      limit, derives the path, uploads, and reports progress through the trace
      `events`. */
  method UploadCampImage(config: Config, file: File, campText: string, fileName: Option<string>,
                         oracle: UploadOracle)
    returns (outcome: Settled<UploadResult>, events: seq<Progress>, request: Option<UploadRequest>)
    ensures Attempt(outcome, events, request) == UploadAttempt(config, file, campText, fileName, oracle)
  {
    events, request := [], None;
    if config.Unconfigured? {
      outcome := Raised(ErrorObject(config.reason));
      return;
    }
    var processed;
    processed, events := CompressIfNeeded(file, oracle.compression);
    if processed.Raised? {
      outcome := Returned(UploadError(MessageOr(processed.thrown, "Upload failed")));
      return;
    }
    ghost var compressing := events;
    events := events + [Progress(Uploading, 0)];
    var folder := CampFolderName(campText);
    var name := ObjectName(fileName, file.name, oracle.now);
    var path := StoragePath(folder, name);
    events := events + [Progress(Uploading, 30)];
    request := Some(UploadRequest(path, processed.value));
    assert events == compressing + [Progress(Uploading, 0), Progress(Uploading, 30)];
    match oracle.reply {
      case Rejected(message) =>
        outcome := Returned(UploadError(message));
        return;
      case Threw(thrown) =>
        outcome := Returned(UploadError(MessageOr(thrown, "Upload failed")));
        return;
      case Stored =>
    }
    events := events + [Progress(Uploading, 100)];
    assert events == compressing + [Progress(Uploading, 0), Progress(Uploading, 30), Progress(Uploading, 100)];
    outcome := Returned(Uploaded(CampImageUrl(config.projectUrl, path), path));
  }

  /** Every compressing report comes before every uploading report. */
  lemma CompressingBeforeUploading(config: Config, file: File, campText: string, fileName: Option<string>,
                                   oracle: UploadOracle, i: nat, j: nat)
    requires var a := UploadAttempt(config, file, campText, fileName, oracle);
      i < j < |a.events| && a.events[j].phase == Compressing
    ensures UploadAttempt(config, file, campText, fileName, oracle).events[i].phase == Compressing
  {
    var large := NeedsCompression(file.Size());
    var (processed, percents) := CompressImage(file, oracle.compression);
    var compressing := CompressionReports(large, percents, processed.Returned?);
    var uploading := UploadReports(oracle.reply);
    var events := UploadAttempt(config, file, campText, fileName, oracle).events;
    if processed.Returned? && config.Configured? {
      assert events == compressing + uploading;
      assert j < |compressing|;
      assert events[i] == compressing[i];
    }
  }

  /** Compressing reports are made exactly for files over the limit, and then
      the first report is `compressing 0`; otherwise it is `uploading 0`. */
  lemma FirstReport(config: Config, file: File, campText: string, fileName: Option<string>, oracle: UploadOracle)
    requires config.Configured?
    ensures var a := UploadAttempt(config, file, campText, fileName, oracle);
      |a.events| > 0 &&
      a.events[0] == (if NeedsCompression(file.Size()) then Progress(Compressing, 0) else Progress(Uploading, 0)) &&
      (!NeedsCompression(file.Size()) ==> forall k :: 0 <= k < |a.events| ==> a.events[k].phase == Uploading)
  {
    var large := NeedsCompression(file.Size());
    var (processed, percents) := CompressImage(file, oracle.compression);
    var compressing := CompressionReports(large, percents, processed.Returned?);
    var uploading := UploadReports(oracle.reply);
    if !large {
      assert UploadAttempt(config, file, campText, fileName, oracle).events == uploading;
    }
  }

  /** `uploading 100` is reported exactly when the upload succeeds, and it is
      then the last report; a refused or failed upload call ends the reports at
      `uploading 30`. */
  lemma LastReport(config: Config, file: File, campText: string, fileName: Option<string>, oracle: UploadOracle)
    ensures var a := UploadAttempt(config, file, campText, fileName, oracle);
      (Progress(Uploading, 100) in a.events <==> Succeeded(a)) &&
      (Succeeded(a) ==> a.events[|a.events| - 1] == Progress(Uploading, 100)) &&
      (a.request.Some? && !Succeeded(a) ==> a.events[|a.events| - 1] == Progress(Uploading, 30))
  {
    var a := UploadAttempt(config, file, campText, fileName, oracle);
    if config.Configured? {
      var large := NeedsCompression(file.Size());
      var (processed, percents) := CompressImage(file, oracle.compression);
      var compressing := CompressionReports(large, percents, processed.Returned?);
      assert Progress(Uploading, 100) !in compressing;
      if processed.Returned? {
        var uploading := UploadReports(oracle.reply);
        assert a.events == compressing + uploading;
        assert a.events[|a.events| - 1] == uploading[|uploading| - 1];
      }
    }
  }

  /** A file that fails to compress is never sent: its reports are the
      compressing ones only, and it settles with the compression error. */
  lemma CompressionFailureStopsUpload(config: Config, file: File, campText: string, fileName: Option<string>,
                                      oracle: UploadOracle)
    requires config.Configured? && NeedsCompression(file.Size()) && oracle.compression.outcome.Failed?
    ensures var a := UploadAttempt(config, file, campText, fileName, oracle);
      a.request.None? &&
      a.outcome == Returned(UploadError("Failed to compress image: " +
                                        MessageOr(oracle.compression.outcome.thrown, "Unknown error"))) &&
      |a.events| == 1 + |oracle.compression.percents| && a.events[0] == Progress(Compressing, 0) &&
      forall k :: 0 <= k < |oracle.compression.percents| ==>
        a.events[1 + k] == Progress(Compressing, oracle.compression.percents[k])
  {
  }

  /** The whole series of reports of one upload: none when the client cannot
      be created; otherwise the compression reports (for a file over the
      limit), followed by the upload reports once the upload call is made. */
  lemma UploadEvents(config: Config, file: File, campText: string, fileName: Option<string>, oracle: UploadOracle)
    ensures var a := UploadAttempt(config, file, campText, fileName, oracle);
      config.Unconfigured? ==> a.events == []
    ensures var a := UploadAttempt(config, file, campText, fileName, oracle);
      config.Configured? ==>
      a.events == CompressionReports(NeedsCompression(file.Size()), oracle.compression.percents, a.request.Some?) +
                  (if a.request.Some? then UploadReports(oracle.reply) else [])
  {
  }

  /** What the URL parser yields for `new URL(imageUrl)`: its pathname, or
      nothing when the constructor throws. */
  function ObjectPathOf(imageUrl: string, pathnameOf: string -> Option<string>): Option<string>
  {
    match pathnameOf(imageUrl)
    case None => None
    case Some(pathname) => ObjectPath(pathname)
  }

  /** `/\/storage\/v1\/object\/public\/camps\/(.+)/` matches starting at `k`:
      the prefix is there and at least one character follows it. */
  predicate MatchesAt(pathname: string, k: nat)
  {
    k + |PublicPrefix| < |pathname| && pathname[k..k + |PublicPrefix|] == PublicPrefix
  }

  /** The leftmost start at or after `from` where the pattern matches, the
      order in which a regular-expression search tries them. */
  function FirstMatch(pathname: string, from: nat): (r: Option<nat>)
    decreases |pathname| - from
    ensures r.Some? ==> from <= r.value && MatchesAt(pathname, r.value)
    ensures r.Some? ==> forall j: nat :: from <= j < r.value ==> !MatchesAt(pathname, j)
    ensures r.None? ==> forall j: nat :: from <= j ==> !MatchesAt(pathname, j)
  {
    if from + |PublicPrefix| >= |pathname| then None
    else if MatchesAt(pathname, from) then Some(from)
    else FirstMatch(pathname, from + 1)
  }

  /** `pathMatch[1]`: the greedy `(.+)` group, i.e. all of the pathname after
      the leftmost occurrence of the prefix that has something after it. */
  function ObjectPath(pathname: string): (r: Option<string>)
    ensures r.None? <==> forall k: nat :: !MatchesAt(pathname, k)
    ensures r.Some? ==> 1 <= |r.value| && |r.value| + |PublicPrefix| <= |pathname|
    ensures r.Some? ==> pathname[|pathname| - |r.value| - |PublicPrefix|..] == PublicPrefix + r.value
    ensures r.Some? ==> forall k: nat :: k < |pathname| - |r.value| - |PublicPrefix| ==> !MatchesAt(pathname, k)
  {
    match FirstMatch(pathname, 0)
    case None => None
    case Some(k) =>
      assert pathname[k..] == PublicPrefix + pathname[k + |PublicPrefix|..];
      Some(pathname[k + |PublicPrefix|..])
  }

  /** A pathname made of the public prefix and a non-empty path yields that
      path; the bare prefix, with nothing after it, yields no path. */
  lemma ObjectPathAfterPrefix(path: string)
    ensures ObjectPath(PublicPrefix + path) == if path == [] then None else Some(path)
  {
    var pathname := PublicPrefix + path;
    if path != [] {
      assert pathname[0..|PublicPrefix|] == PublicPrefix;
      assert MatchesAt(pathname, 0);
    }
  }

  /** What the bucket answers to `remove([path])`. */
  datatype RemoveReply = Removed | RemoveRejected(message: string) | RemoveThrew(thrown: Thrown)

  /** `deleteCampImage`: returns whether the object behind a public URL was
      removed, and the path handed to `remove` if it was called. */
  method DeleteCampImage(config: Config, imageUrl: string, pathnameOf: string -> Option<string>,
                         reply: RemoveReply)
    returns (outcome: Settled<bool>, removed: Option<string>)
    ensures removed == (if config.Configured? then ObjectPathOf(imageUrl, pathnameOf) else None)
    ensures config.Unconfigured? ==> outcome == Raised(ErrorObject(config.reason))
    ensures config.Configured? ==> outcome == Returned(removed.Some? && reply.Removed?)
  {
    removed := None;
    if config.Unconfigured? {
      outcome := Raised(ErrorObject(config.reason));
      return;
    }
    var pathname := pathnameOf(imageUrl);
    if pathname.None? {
      outcome := Returned(false);
      return;
    }
    var path := ObjectPath(pathname.value);
    if path.None? {
      outcome := Returned(false);
      return;
    }
    removed := path;
    if !reply.Removed? {
      outcome := Returned(false);
      return;
    }
    outcome := Returned(true);
  }

  predicate IsDotfile(name: string)
  {
    |name| > 0 && name[0] == '.'
  }

  /** `filter((file) => !file.name.startsWith("."))` */
  function VisibleNames(names: seq<string>): (r: seq<string>)
    ensures |r| <= |names|
    ensures forall n :: n in r <==> n in names && !IsDotfile(n)
  {
    if names == [] then []
    else (if IsDotfile(names[0]) then [] else [names[0]]) + VisibleNames(names[1..])
  }

  /** The filter keeps listing order: it distributes over concatenation. */
  lemma {:induction false} VisibleNamesAppend(a: seq<string>, b: seq<string>)
    ensures VisibleNames(a + b) == VisibleNames(a) + VisibleNames(b)
  {
    if a == [] {
      assert a + b == b;
    } else {
      assert (a + b)[1..] == a[1..] + b;
      VisibleNamesAppend(a[1..], b);
    }
  }

  /** What the bucket answers to `list("main/<folder>")`: the names listed
      (`data` may be null), an error object, or a throw. */
  datatype ListReply = Listed(names: Option<seq<string>>) | ListRejected(message: string) | ListThrew(thrown: Thrown)

  /** `listCampImages`: the public URL of every listed object that is not a
      dotfile, in listing order; an error or missing data gives no URLs. */
  function ListCampImages(config: Config, campText: string, reply: ListReply): (r: Settled<seq<string>>)
    ensures config.Unconfigured? ==> r == Raised(ErrorObject(config.reason))
    ensures config.Configured? && reply.ListThrew? ==> r == Raised(reply.thrown)
    ensures config.Configured? && (reply.ListRejected? || reply == Listed(None)) ==> r == Returned([])
    ensures config.Configured? && reply.Listed? && reply.names.Some? ==>
      r.Returned? && |r.value| == |VisibleNames(reply.names.value)| &&
      forall k :: 0 <= k < |r.value| ==>
        r.value[k] == CampImageUrl(config.projectUrl,
                                   StoragePath(CampFolderName(campText), VisibleNames(reply.names.value)[k]))
  {
    match config
    case Unconfigured(reason) => Raised(ErrorObject(reason))
    case Configured(projectUrl) =>
      var folder := CampFolderName(campText);
      match reply
      case ListThrew(thrown) => Raised(thrown)
      case ListRejected(_) => Returned([])
      case Listed(None) => Returned([])
      case Listed(Some(names)) =>
        var visible := VisibleNames(names);
        Returned(seq(|visible|, k requires 0 <= k < |visible| =>
          CampImageUrl(projectUrl, StoragePath(folder, visible[k]))))
  }
}
