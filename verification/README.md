# Camp image upload pipeline

A Dafny model of the image-upload core of the KH-Club back office. There are two cooperating pieces.

- **The storage service** (`src/services/storage.ts`, module `Storage`, file `storage.dfy`):
  - It names a camp's folder after its id (`53.5` becomes `53-5`).
  - It derives object paths (`main/<folder>/<name>`) and extensions.
  - It decides whether a file must be compressed before upload (over 5 MB).
  - It uploads one image and reports its progress as `compressing` and `uploading` percentages.
  - It deletes an image by its public URL.
  - It lists a camp's images.
- **The upload panel** (`src/components/image-upload.tsx`, module `ImageUpload`, file `image_upload.dfy`):
  - `handleUpload` checks its guards and cuts the batch to the free slots. It keeps one progress entry per accepted file and uploads the files one after another. Then it appends the stored files' URLs to the camp's image list.
  - `handleRemove` deletes an image and drops it from the list.
  - `saveImagesToDatabase` writes the list to the camp row.

Shared vocabulary lives in module `Common` (`common.dfy`):
- optional values;
- values a callee throws;
- settled promises;
- the string operations the code relies on: decimal printing of integers, `split(".").pop()` and `toLowerCase`.

How the outside world is modelled:
- Every external effect is an argument:
  - `Config` says whether `createClient()` succeeds, and the project URL it serves public URLs under.
  - `CompressionRun` is what the compression library reports and returns.
  - `UploadReply`, `RemoveReply` and `ListReply` are what the bucket answers.
  - `now` and `FileEnv.stamp` are clock readings.
  - `pathnameOf` is `new URL(...).pathname`, or `None` when the URL does not parse.
- The storage service's functions and methods return their progress reports as a trace.
- The panel is a class:
  - Its state is `images`, `uploading` and `uploadProgress`.
  - A ghost `effects` log records, in order, the calls it makes to the bucket, to `onImagesChange` and to the database.
- The camp id enters as its decimal text. `campId === 0` is the text `"0"`.

Where the code and its documentation part ways, the model follows the code:
- `createClient()` sits outside the `try` in `uploadCampImage`, `deleteCampImage` and `listCampImages`.
- So when the client cannot be created, those promises reject instead of returning `{ error }`, `false` or `[]`.
- The model keeps that path (`Raised`). `handleUpload` then marks the file's entry as failed through its own `catch`. `handleRemove` rejects before the list changes.

## Model

| member | source | states |
|---|---|---|
| Common.DecimalDigits | src/components/image-upload.tsx:101 | a printed integer (`${Date.now()}`, `${i}`) is a non-empty run of digits with no leading zero |
| Common.DecimalRoundTrip | src/components/image-upload.tsx:101 | reading a printed integer back gives the integer |
| Common.DecimalInjective | src/components/image-upload.tsx:101 | distinct integers print as distinct texts |
| Common.LastSegment | src/services/storage.ts:102 | `split(".").pop()` is a dot-free suffix of the name; a `.` precedes it unless it is the whole name; a name without `.` is its own segment |
| Common.AfterLastDotOfJoin | src/services/storage.ts:103 | after appending `.` and a dot-free extension, `split(".").pop()` gives back that extension |
| Common.ToLower | src/services/storage.ts:102 | lower-casing keeps the length, turns each upper-case ASCII letter into its lower-case letter and changes no other character |
| Storage.CampImageUrl | src/services/storage.ts:18-22 | defines the public URL of an object path: the project URL, `/storage/v1/object/public/camps/`, and the path |
| Storage.CampFolderName | src/services/storage.ts:11-13 | the folder name has the id text's length, and a text with no `.` is unchanged |
| Storage.FolderNameChars | src/services/storage.ts:11-13 | character by character, the folder name replaces only the first `.` of the id text with `-` and copies every other character, later dots included |
| Storage.FolderNameExamples | src/services/storage.ts:7-13 | `54` gives `54`, `53.5` gives `53-5`, and `1.2.3` gives `1-2.3` |
| Storage.Extension | src/services/storage.ts:102 | the extension is non-empty, has no `.` and no upper-case letter; the `jpg` fallback is taken exactly when the last segment is empty; otherwise the extension is that segment lower-cased |
| Storage.ObjectName | src/services/storage.ts:103 | the name is never empty; a non-empty `fileName` is used as given |
| Storage.GeneratedName | src/services/storage.ts:102-103 | when `fileName` is missing or empty, the name is the clock's digits, `.`, and the extension, and its last segment is that extension |
| Storage.NeedsCompression | src/services/storage.ts:42-48 | compression is needed iff `size / (1024*1024) > 5` on real numbers, which is `size > 5242880` bytes |
| Storage.CompressImage | src/services/storage.ts:38-68 | a file within the limit comes back unchanged and the library is not called; otherwise the library's percentages are forwarded and a compressed file comes back as the library produced it; it fails iff the library fails, with `Failed to compress image: <message or "Unknown error">` |
| Storage.Percents | src/services/storage.ts:89-91 | each library percentage is forwarded, in order, as a `compressing` report |
| Storage.CompressionReports | src/services/storage.ts:87-93 | all reports are `compressing`; an oversize file starts with 0, then the library's percentages, then 100 only if a file was produced; a small file has no report |
| Storage.UploadReports | src/services/storage.ts:96-121 | the upload reports are exactly `uploading 0` and `uploading 30`, followed by `uploading 100` iff the bucket stored the file |
| Storage.UploadOutcome | src/services/storage.ts:74-131 | the upload rejects iff the client cannot be created; it succeeds iff the bucket stores a file that needed no compression or compressed; the request is `main/<folder>/<name>` carrying the compressed or original file; a success returns the public URL of that path; a bucket error or throw returns `{ error }` with the message or `Upload failed` |
| Storage.CompressIfNeeded | src/services/storage.ts:84-93 | step 1 settles as `compressImage` does and emits exactly the compression reports |
| Storage.UploadAttempt | src/services/storage.ts:74-131 | defines the whole course of one upload: how it settles, its progress reports in order, and the upload request it makes, if any; `UploadOutcome`, `UploadEvents`, `FirstReport` and `LastReport` state its properties |
| Storage.UploadCampImage | src/services/storage.ts:74-131 | the step-by-step upload settles, reports and requests exactly as the upload course `UploadAttempt` describes |
| Storage.UploadEvents | src/services/storage.ts:80-121 | the whole series of reports: none when the client cannot be created; otherwise the compression reports (only for a file over the limit), then the upload reports once the upload call is made |
| Storage.CompressingBeforeUploading | src/services/storage.ts:87-106 | every `compressing` report comes before every `uploading` report |
| Storage.FirstReport | src/services/storage.ts:87-96 | the first report is `compressing 0` for an oversize file and `uploading 0` otherwise; a small file gets no `compressing` report |
| Storage.LastReport | src/services/storage.ts:106-121 | `uploading 100` is reported iff the upload succeeds, and it is then the last report; a refused or failed upload call ends at `uploading 30` |
| Storage.CompressionFailureStopsUpload | src/services/storage.ts:84-129 | a failed compression makes no upload request and returns `{ error: "Failed to compress image: <message or Unknown error>" }`; its reports are exactly `compressing 0` followed by the library's percentages in order, with no `compressing 100` and no upload report |
| Storage.FirstMatch | src/services/storage.ts:142 | the regular expression's search finds the leftmost position where the prefix occurs followed by at least one character, or reports that there is none |
| Storage.ObjectPath | src/services/storage.ts:142-149 | there is a match iff the prefix occurs somewhere with a character after it; the captured path is non-empty and is everything after the leftmost such occurrence |
| Storage.ObjectPathAfterPrefix | src/services/storage.ts:141-149 | a pathname made of the public prefix and a non-empty path yields that path; the bare prefix yields none |
| Storage.DeleteCampImage | src/services/storage.ts:136-163 | `remove` is called with exactly the extracted path, and only when there is one; the result is true iff the path was found and `remove` reported no error; an unparsable URL gives false; a missing client rejects |
| Storage.VisibleNames | src/services/storage.ts:185-186 | a listed name is kept iff it does not start with `.` |
| Storage.VisibleNamesAppend | src/services/storage.ts:185-186 | the dotfile filter keeps listing order: it distributes over concatenation |
| Storage.ListCampImages | src/services/storage.ts:168-188 | an error reply or null data gives `[]`; otherwise there is one public URL of `main/<folder>/<name>` per visible name, in listing order; a throw or a missing client rejects |
| ImageUpload.PatchEntry | src/components/image-upload.tsx:103-109 | a progress update rewrites entry `i` only; every other entry is unchanged |
| ImageUpload.ReplayShowsLast | src/components/image-upload.tsx:102-110 | after a series of progress reports, the entry shows the stage and percentage of the last one and nothing else changes |
| ImageUpload.Settle | src/components/image-upload.tsx:102-139 | defines a file's entry once its file has been handled: the entry after every progress report, then `done`/100 or `error` with the message; `SettledEntry` states its properties |
| ImageUpload.SettledEntry | src/components/image-upload.tsx:113-139 | a settled entry is `done`/100 iff its upload returned a URL; otherwise it is `error` with the returned or thrown message (or `Upload failed`) at the last reported percentage; its name and size never change |
| ImageUpload.RefusedEntryProgress | src/components/image-upload.tsx:120-125 | a file the bucket refused ends as `error` at the 30 per cent reported before the upload call |
| ImageUpload.CompressionFailureEntry | src/components/image-upload.tsx:120-125 | a file that failed to compress ends as `error` with `Failed to compress image: ...`, at the library's last percentage, or at 0 when it reported none |
| ImageUpload.PanelFileName | src/components/image-upload.tsx:101 | defines the name the panel passes for file `i`: the clock's digits, `-`, `i`, `.`, and the original name's last segment |
| ImageUpload.PanelFileNamesDistinct | src/components/image-upload.tsx:101 | two generated names agree only if the clock readings and the file indexes agree; within one batch, names never collide |
| ImageUpload.PanelFileNameExtension | src/components/image-upload.tsx:101 | the panel's name ends in the original name's last segment, neither lower-cased nor defaulted |
| ImageUpload.SliceLength | src/components/image-upload.tsx:79 | defines how many files `slice(0, end)` keeps: `end` clamped to the file count, with a negative `end` counting back from the last file |
| ImageUpload.AcceptedFiles | src/components/image-upload.tsx:79 | defines the accepted files as the prefix `slice(0, maxImages - images.length)` keeps; `AcceptedCount` states its properties |
| ImageUpload.AcceptedCount | src/components/image-upload.tsx:79-80 | the accepted files are a prefix; with room left there are at most `maxImages - images.length` of them, and all of them when they fit; a full list takes none; a list over capacity by `d` takes all files but the last `d` |
| ImageUpload.Attempts | src/components/image-upload.tsx:94-140 | the batch's courses are one per accepted file |
| ImageUpload.AttemptsAgree | src/components/image-upload.tsx:94-111 | course `k` of the batch is file `k`'s upload under its generated name |
| ImageUpload.AttemptsSnoc | src/components/image-upload.tsx:113-114 | one more file adds its URL iff it was stored, and its upload call iff it reached the bucket |
| ImageUpload.NewUrlsCount | src/components/image-upload.tsx:92-140 | the collected URLs and the failed files together account for every file |
| ImageUpload.NoUrlsIffAllFailed | src/components/image-upload.tsx:143 | no URL is collected iff every file failed |
| ImageUpload.AllStored | src/components/image-upload.tsx:113-114 | when every file is stored, URL `k` is file `k`'s URL |
| ImageUpload.OneFailure | src/components/image-upload.tsx:94-140 | one failing file costs exactly one URL; later files are still processed |
| ImageUpload.CapacityKept | src/components/image-upload.tsx:79-148 | a list within capacity stays within `maxImages` after a batch |
| ImageUpload.NoRequestsNoCalls | src/components/image-upload.tsx:94-139 | files that never reach the bucket leave no upload call and no URL |
| ImageUpload.UnconfiguredBatchMakesNoCalls | src/components/image-upload.tsx:97-139 | when the storage client cannot be created, every file fails in the `catch` with no upload call and no URL |
| ImageUpload.Without | src/components/image-upload.tsx:168 | removing index `i` of a list of length `L` leaves `L - 1` images, the others in their original order; an index outside the list removes nothing |
| ImageUpload.WithoutMultiset | src/components/image-upload.tsx:168 | removal drops exactly one occurrence of the removed image and keeps every other image |
| ImageUpload.ImageUploadPanel.constructor | src/components/image-upload.tsx:26-35 | the panel starts idle, with no progress entries and the given props; `maxImages` defaults to 10 when not given |
| ImageUpload.SaveEffects | src/components/image-upload.tsx:40-55 | defines what a save does to the database: no update for a missing or 0 id or a client that cannot be created, otherwise one `img_src` update on row `dbRecordId` |
| ImageUpload.ImageUploadPanel.SaveImagesToDatabase | src/components/image-upload.tsx:40-69 | no update when `dbRecordId` is absent or 0, or when the client cannot be created; otherwise exactly one update setting `img_src` to the list on row `dbRecordId` |
| ImageUpload.ImageUploadPanel.ReportProgress | src/components/image-upload.tsx:102-110 | the progress callbacks of file `i` rewrite entry `i` only, ending in the state their replay describes |
| ImageUpload.ImageUploadPanel.HandleUpload | src/components/image-upload.tsx:71-157 | no files, camp id 0, or nothing accepted changes nothing; otherwise each entry `k` is file `k`'s settled entry; `images` becomes the old list followed by the stored URLs in file order; the upload calls happen in file order; `onImagesChange` and the save follow only when some URL was collected |
| ImageUpload.ImageUploadPanel.UploadBatch | src/components/image-upload.tsx:83-140 | the loop leaves one settled entry per file; it collects exactly the stored files' URLs in file order and makes exactly their upload calls |
| ImageUpload.ImageUploadPanel.UploadFile | src/components/image-upload.tsx:94-139 | one turn changes only entry `i`, to the settled entry of file `i`; it makes file `i`'s upload call if any, and yields its URL iff it was stored |
| ImageUpload.ImageUploadPanel.StartTasks | src/components/image-upload.tsx:83-90 | one entry per accepted file, in file order, `uploading` at 0 with its name and size |
| ImageUpload.ImageUploadPanel.ClearProgress | src/components/image-upload.tsx:150-154 | the delayed reset empties the progress list and clears `uploading` |
| ImageUpload.ImageUploadPanel.HandleRemove | src/components/image-upload.tsx:159-175 | the delete is attempted before the list changes; whatever it returns, the list loses exactly index `i`; the form is told and the new list is saved; a missing client rejects before any change |

## Left out

- `formatFileSize` (src/services/storage.ts:27-33) is not modelled. It formats sizes for log lines and for the size label of each progress entry (src/components/image-upload.tsx:246), and it works in floating point (`Math.log`, `Math.pow`, `toFixed`).
- The compression library's internals and options (target 4.5 MB, 2048 px, web worker) are not code of this repository. A `CompressionRun` argument stands for what the library reports and returns.
- The Supabase client (`getPublicUrl`, `upload`, `remove`, `list`, `update().eq()`) is represented by its answers. `getPublicUrl` is modelled as the project URL, the public prefix and the path joined, with no percent-encoding. The `cacheControl` and `upsert` options are not modelled.
- The camp id's float formatting (`Number.prototype.toString`) is not modelled. The id enters as its decimal text, and a `NaN` or negative id is only the text it prints as.
- Common.ToLower: lower-cases the ASCII letters only, not the rest of Unicode.
- Storage.ObjectPath: the regular expression's `.` does not match line terminators. Pathnames with line terminators are not modelled, because a parsed URL's pathname percent-encodes them.
- Storage.ObjectPathAfterPrefix: the delete-after-upload round trip is not claimed. `pathnameOf(CampImageUrl(projectUrl, path))` is left unconstrained, because a parsed pathname ends at `?` or `#` and percent-encodes spaces and non-ASCII characters. So a path holding such characters (the panel copies the original file's last segment verbatim) need not come back unchanged.
- The clock (`Date.now()`) is a parameter per call, and the URL parser is the `pathnameOf` parameter. They are not derived from the environment.
- Progress percentages are integers. The library's fractional percentages are not modelled.
- A `list` reply is modelled as the listed names only. Other object metadata is not modelled.
- The database update's reply (error or success) only chooses a toast. The model records the update and not the toast.
- `console`, `toast` and `alert` have no effect on state and are not modelled.
- The 2000 ms timer is not modelled as a delay. Its callback is the separate step `ClearProgress`.
- React specifics are not modelled:
  - the closure staleness of `images` between renders;
  - JSX rendering;
  - drag and drop;
  - the `dragOver` flag.
- `onImagesChange` is modelled as the form storing the new list back into the panel's `images`.
- ImageUpload.ImageUploadPanel.HandleUpload: stops before the reset timer fires. The reset is `ClearProgress`, called by whoever models the timer.
