# Wedding uploader: the upload component in Dafny

This project models `FileUploader`, the React component of the wedding
uploader. Guests use it to pick photos and videos and store them in a
Supabase storage bucket. The model covers the component's behaviour, not
its markup:

- **Readiness.** At mount, the storage check (`checkAndCreateBucket`) looks
  up the bucket `wedding-uploads`. If the bucket is missing it creates it
  (private, 100 MiB file limit) and writes a marker object. When
  `getBucket` reports no error, it lists the bucket. Any other error from
  `getBucket` ends the check at once. The check then sets `bucketReady` and
  clears `checkingStorage`, or sets one of three error texts. Module
  `Uploader`.
- **Selection.** `handleFileChange` takes only a non-empty selection and
  clears the error and success flags. Module `Uploader`.
- **Upload preconditions.** `handleUpload` refuses, with its own message,
  when nothing is selected or the storage is not ready. Module `Uploader`.
- **The batch.** The sequential loop over the selected files works as follows:
  - Each file is validated: the size cap first, then the extension allow-list.
  - Each accepted file gets a storage key built from the couple's names, the
    clock reading and a random token. It is then uploaded.
  - Two counters and an error list are kept. Progress goes to
    `Math.round(completed / total * 100)`.
  - The batch ends in one of three outcomes: clean success; partial success
    with a message listing the first three errors; or total failure.
  - An exception thrown by the storage client leaves the loop and lands in
    the `catch`.
  - Modules `Validation`, `StorageKey`, `Progress`, `Batch` and `Uploader`.

The storage service is an oracle. Each call's reply is a parameter:
`Reply` for the calls at mount, and `env(i)` for the file at position `i`.
`env(i)` supplies `Date.now()`, the random token and the `upload` reply.
An upload reply either reports success, returns an error value, or throws.

The batch loop is a left fold (`Batch.Run`) over the per-file outcomes
(`Batch.Outcomes`). It is related by lemmas to an independent, filter-based
account of the same outcomes (`Uploads`, `Messages`, `Paths`).

Module layout:

| file | module | content |
|---|---|---|
| `wrappers.dfy` | `Wrappers` | `Option` |
| `strings.dfy` | `Strings` | ASCII lower-casing, `split`/`join`, last segment, first-occurrence `replace`, decimal rendering |
| `validation.dfy` | `Validation` | the size and type checks |
| `progress.dfy` | `Progress` | the rounded percentage |
| `storage_key.dfy` | `StorageKey` | the object key and its parser |
| `batch.dfy` | `Batch` | the loop as a fold, the filtered account, the end-of-batch summary |
| `uploader.dfy` | `Uploader` | component state, mount check, the two handlers, sessions of events |
| `scenarios.dfy` | `Scenarios` | worked batches with concrete files |

Behaviours of the code worth noting:

- **Total failure.** When every file fails, the code throws an
  `Error("Failed to upload any files: …")`. The `catch` then replaces it with
  the generic "Failed to upload. Please try again.", so the per-file details
  are never shown.
- **Folder name.** `coupleNames.replace(' & ', '-')` replaces only the first
  `" & "`.
- **Progress on a new selection.** `handleFileChange` does not reset the
  progress value.
- **Readiness flags.** Readiness is the two booleans `checkingStorage` and
  `bucketReady`.
- **Errors during the storage check.**
  - An error *returned* by the marker upload or by `list()` is only logged.
  - A *thrown* one reaches the `catch`, which leaves `bucketReady` false.

## Model

| member | source | states |
|---|---|---|
| Validation.Validate | src/components/FileUploader.tsx:131-149 | a file is too large exactly when its size exceeds 52428800 bytes; an accepted file's extension is one of the seven allowed ones |
| Validation.AcceptedIff | src/components/FileUploader.tsx:131-149 | a file is accepted exactly when it is at most 50 MiB and its lower-cased name is an allowed extension or ends with `.` followed by one |
| Validation.TrailingDotRejected | src/components/FileUploader.tsx:141-143 | a name ending in `.` has an empty extension and is rejected |
| Validation.NoDotWholeName | src/components/FileUploader.tsx:141-143 | a name without `.` is its own extension, so it is accepted only if the whole lower-cased name is an allowed extension |
| Validation.CaseInsensitive | src/components/FileUploader.tsx:141 | the verdict depends on the name only through its lower-cased form |
| Strings.AfterLast | src/components/FileUploader.tsx:141 | `split('.').pop()` is a `.`-free suffix of the name, preceded by `.` unless it is the whole name |
| Strings.JoinSplit | src/components/FileUploader.tsx:141 | joining the pieces of a split with the separator gives the string back |
| Strings.SplitJoin | src/components/FileUploader.tsx:328 | splitting a join of separator-free pieces gives exactly those pieces |
| Strings.IndexOf | src/components/FileUploader.tsx:36 | the result is the first position where the pattern occurs, and there is none exactly when the pattern never occurs |
| Strings.ReplaceFirst | src/components/FileUploader.tsx:154 | without an occurrence the string is unchanged; otherwise only the first occurrence is replaced |
| Strings.StringToNatOfNatToString | src/components/FileUploader.tsx:153 | the decimal rendering of the timestamp reads back to the same number |
| StorageKey.ParseObjectKey | src/components/FileUploader.tsx:153-154 | every key for an accepted file parses back into the couple folder, the timestamp, the token and the extension |
| StorageKey.ObjectKeyInjective | src/components/FileUploader.tsx:153-154 | two keys for the same couple are equal exactly when timestamp, token and extension are |
| StorageKey.KeyKeepsExtension | src/components/FileUploader.tsx:141-154 | the validation rule applied to a key gives back the validated extension |
| StorageKey.FolderReplacesFirstOnly | src/components/FileUploader.tsx:154 | `"A & B & C"` becomes the folder `"A-B & C"` |
| StorageKey.FolderWithoutSeparator | src/components/FileUploader.tsx:154 | a couple name without `" & "` is used as the folder unchanged |
| Progress.Percent | src/components/FileUploader.tsx:173 | the value is `100 * completed / total` rounded half up, and at most 100 |
| Progress.PercentEnds | src/components/FileUploader.tsx:117-173 | no file stored shows 0, all files stored shows 100 |
| Progress.PercentMonotone | src/components/FileUploader.tsx:172-173 | more stored files never show a lower percentage |
| Progress.PercentFullIff | src/components/FileUploader.tsx:173 | the display reaches 100 exactly when at least 99.5% of the files are stored |
| Progress.PercentFullSmallBatch | src/components/FileUploader.tsx:173 | below 200 files, 100 is shown exactly when every file is stored |
| Progress.PercentFullWithFailure | src/components/FileUploader.tsx:173 | with 200 files, 199 stored already shows 100 |
| Batch.OutcomeOf | src/components/FileUploader.tsx:131-172 | a file is skipped exactly when validation rejects it, stored exactly when it is accepted and `upload` succeeds, and aborts the loop exactly when `upload` throws; every file that reaches `upload` uses its generated key; a skipped file records "File <name> exceeds 50MB limit and will be skipped" when oversized and "File <name> has invalid type and will be skipped" otherwise, and a refused one "Error uploading <name>: <message>" |
| Batch.Run | src/components/FileUploader.tsx:123-174 | each file before an exception bumps exactly one counter; one message per failure; progress values are the percentages of 1, 2, … stored files; `upload` is called at most once per file, in order, only for non-skipped files, under their keys |
| Batch.RunStopsAfterAbort | src/components/FileUploader.tsx:121-192 | once an exception has left the loop, later files change nothing |
| Batch.ProgressNonDecreasing | src/components/FileUploader.tsx:172-173 | the progress values passed during a batch never decrease and stay at most 100 |
| Batch.RunMatchesOutcomes | src/components/FileUploader.tsx:123-174 | without an exception the loop counts the stored files and the rest, collects the messages of skipped and failed files in order, and uploads every accepted file in order |
| Batch.RunAbortsAtFirstCrash | src/components/FileUploader.tsx:156-174 | an exception from file k's `upload` ends the loop with the counters of the files before k |
| Batch.PutsOnlyForAccepted | src/components/FileUploader.tsx:131-161 | `upload` is called only for files that passed both checks, under the key built from that file's timestamp, token and extension |
| Batch.EveryFailureReported | src/components/FileUploader.tsx:131-168 | every oversized, wrongly typed or refused file that the loop reaches before any `upload` throws has its message, naming the file, in the loop's `errorMessages` |
| Batch.PartialSummaryLines | src/components/FileUploader.tsx:181-186 | when no message contains a newline, the partial-success message splits into the count line, the first three messages, and "...and N more errors" exactly when more than three failed |
| Uploader.CheckStorage | src/components/FileUploader.tsx:24-91 | once every storage call has settled, the check ends with `checkingStorage` cleared; the storage becomes ready exactly when the bucket exists or is created, and the calls that can follow (`list`, the marker upload) do not throw; on failure one of the three messages is set; `createBucket` is called exactly when `getBucket` reports "not found", always with a private bucket and a 100 MiB limit; no other field changes |
| Uploader.MountReadiness | src/components/FileUploader.tsx:19-91 | from the initial state, readiness moves from checking to ready exactly when the storage is usable and to unavailable otherwise; a failed `createBucket` gives the storage-initialisation message, another `getBucket` error the connection message, and an exception from `getBucket`, `createBucket`, the marker upload or `list` the initialisation message |
| Uploader.HandleFileChange | src/components/FileUploader.tsx:97-103 | a non-empty selection replaces the files and clears error and success; anything else changes nothing; no other field changes |
| Uploader.HandleUpload | src/components/FileUploader.tsx:105-196 | no files or no storage gives the matching message with no `upload` call and nothing else changed; a processed batch ends not uploading with progress at most 100 |
| Uploader.SettleWithoutException | src/components/FileUploader.tsx:176-192 | after a loop that ran to the end, success exactly when a file was stored, no error text exactly when all were, the generic failure text exactly when none was, and the summary message otherwise |
| Uploader.UploadWithoutException | src/components/FileUploader.tsx:176-195 | with no exception, success exactly when a file was stored; no error exactly when all were; the generic failure exactly when none was; otherwise the summary message; progress is the percentage stored |
| Uploader.PartialSuccessLines | src/components/FileUploader.tsx:181-186 | when no message contains a newline, a batch with stored and failed files reports success and shows, line by line, the counts, the first three messages in file order and the "more errors" line exactly when more than three failed |
| Uploader.EveryFileStored | src/components/FileUploader.tsx:172-189 | if every file is stored: success, no error, progress 100, one `upload` per file, progress values k/n for k = 1..n |
| Uploader.NoFileStored | src/components/FileUploader.tsx:176-192 | if every file is skipped or refused: no success, the generic failure, progress 0 |
| Uploader.UploadWithException | src/components/FileUploader.tsx:156-192 | a throwing `upload` ends in the generic failure, no success, and the progress reached before it |
| Uploader.FullProgressIffAllStored | src/components/FileUploader.tsx:172-173 | below 200 files, the final progress is 100 exactly when every file was stored, whether or not an `upload` throws |
| Uploader.ReadinessStable | src/components/FileUploader.tsx:97-114 | no user event changes the readiness |
| Uploader.NoPutsUnlessReady | src/components/FileUploader.tsx:111-114 | while the storage is not ready, no sequence of events reaches `upload` |
| Uploader.FailedMountBlocksUploads | src/components/FileUploader.tsx:24-114 | after a failed storage check, the storage stays unavailable and no later event uploads anything |
| Scenarios.TwoFilesStored | src/components/FileUploader.tsx:128-189 | a 2 MB photo and a 10 MB video both stored: success, progress 50 then 100 |
| Scenarios.OversizedVideo | src/components/FileUploader.tsx:131-138 | a 60 MiB video is skipped with no `upload`, ending in the generic failure with progress 0 |
| Scenarios.PhotoAndPdf | src/components/FileUploader.tsx:140-186 | a stored photo next to a PDF: partial success, progress 50, one `upload`, a two-line message naming the PDF |

## Left out

- Rendering (JSX, class names, the status dot, the progress bar markup) is not modelled. The model only keeps the state the markup reads.
- Console logging is not modelled; it has no effect on state.
- The Supabase client, the network and the `await` points are not modelled. Each storage call is a reply parameter, and the handlers run as one sequential step.
- Every storage call is assumed to settle. A call that never resolves would leave `checkingStorage` or `uploading` true for good; the code sets no timeout, and that case is not modelled.
- React's scheduling and batching of state updates are not modelled. Neither is the interleaving of the mount check with user events, nor the `disabled={uploading}` attribute on the input and button. Each handler runs to completion before the next event.
- `Date.now()` and `Math.random()` are parameters (`env(i).now`, `env(i).token`). The token is only assumed to consist of base-36 digits (`IsToken`); the `substring(2, 15)` length is not modelled.
- The contents returned by `list()`, the marker blob, the uploaded bytes and the `cacheControl`/`upsert` options are not modelled. Only the call and its path are recorded.
- `file.size` is a natural number. Only `name` and `size` of a `File` are modelled.
- Progress.Percent: floating-point `Math.round(completed / total * 100)` is modelled as exact round-half-up. The two agree except where floating-point error moves a quotient across a `.5` boundary.
- Strings.Lower: `toLowerCase()` is modelled for ASCII letters only. Other Unicode case mappings are not modelled.
- `weddingDate`, `App.tsx`, the decorative components and the configuration beyond the bucket name (URL, key) are not part of this model.
