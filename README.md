# zipdrop core in Dafny

zipdrop turns a user's file selection into one shareable artifact and can publish it to an
S3-compatible bucket (Cloudflare R2). This project models the two parts that hold its logic and
proves properties of them.

- **Artifact processor** (`src-tauri/src/processor.rs`).
  - `validate_files` checks a selection: the count first, then each path in list order (exists,
    not a directory, size readable and at most 500 MiB, extension allowed), then the total of at
    most 1 GiB.
  - `process_files` then picks a strategy: one image is re-encoded to WebP, one other file is
    copied, and several files are zipped.
- **Upload client** (`src-tauri/src/uploader.rs`).
  - The error classifiers `is_transient_error` and `friendly_error`.
  - The object key `u/<id>_<safe stem>.<ext>`, the MIME table and the public URL.
  - The credential check and the delete.
  - The upload loop: at most three attempts, backing off 1000 ms and then 2000 ms.

Modules, one per file:

- `Common` (common.dfy): `Option`, `Result`, `Step` and the `u16`/`u64` ranges.
- `Text` (text.dfy): ASCII `to_lowercase`, `str::contains` and decimal rendering.
- `Paths` (paths.dfy): `Path::file_name`, `file_stem`, `extension` and `join` on '/'-separated
  strings.
- `Files` (files.dfy): the file system, a map from path to an entry.
  - Each entry holds a directory flag, the outcome of reading its metadata and the outcome of
    reading its bytes. A path is in the map exactly when it exists.
- `Processor` (processor.dfy): validation, the three strategies and the dispatch.
  - `ValidateFiles` and `CreateZip` are the source's loops, written as methods. Each is proved
    equal to a function (`Validate`, `ArchiveResult`) that the lemmas reason about.
  - The image, zip and file-system libraries appear only through an `Io` record. It gives the
    outcome of each step they perform and the size read back from the written file.
- `UploadErrors` (errors.dfy): the two error classifiers.
- `ObjectKeys` (keys.dfy): sanitising, the key, the content type and the URL.
- `Uploader` (uploader.dfy): the credential check, the delete and the retry loop.
  - Building the client (`Credentials::new`, `Bucket::new`) is a `ClientSetup` value.
  - Attempt `k` of the upload is answered by `transport(k)`: an HTTP status, or a transport
    error with its text.
  - `UploadToR2` returns the result, the PUT requests it sent and the delays it slept.
  - Its loop is the method `RetryPut`. The body of one round, which classifies an answer, is the
    method `HandleAnswer`.

Two points of the code's behaviour worth stating outright:

- An archive's type tag is "zip" (processor.rs:249), and so is `ArchiveResult`'s.
- `validate_r2_credentials` deletes the test object only after a 200 answer (uploader.rs:87-89).
  `ValidateR2Credentials` states that the delete is sent exactly when the check succeeds.

An observation the proofs bring out, which is not claimed as a bug:

- `friendly_error` reports a text containing "timed out" as a timeout.
- `is_transient_error` looks only for "timeout", so an error text whose only mention of a timeout
  is "timed out" (for example "operation timed out") is not retried
  (`UploadErrors.TimedOutIsNotRetried`). A text that also holds another marker, such as
  "Connection timed out", is retried.

## Model

| member | source | states |
|---|---|---|
| Processor.CheckFile | src-tauri/src/processor.rs:72-127 | a path passes only if it exists, is not a directory and its metadata gives a size of at most 500 MiB; that size is what it contributes |
| Processor.Validate | src-tauri/src/processor.rs:54-141 | an accepted selection has 1 to 50 paths; an error naming a file names one of the selected paths; an error without a file is the empty-list, too-many-files or total-size error |
| Processor.ValidateFiles | src-tauri/src/processor.rs:54-141 | the validation loop returns exactly the validation function's verdict; its running u64 total stays within 50 × 500 MiB, so it never overflows |
| Processor.FirstInvalid | src-tauri/src/processor.rs:72-127 | a per-file failure is the error of one of the paths, whose check fails, together with that path |
| Processor.TotalSizeBound | src-tauri/src/processor.rs:97-109 | when every path passes, the accumulated size is at most one maximal file per path |
| Processor.CheckStep | src-tauri/src/processor.rs:72-127 | once the paths before i pass, a failure of path i is the selection's failure; a pass adds its size, and the running total stays below the u64 range |
| Processor.FirstInvalidOfPrefix | src-tauri/src/processor.rs:72-127 | the checks short-circuit: once a prefix holds a failing path, later paths do not change the error |
| Processor.CountChecksComeFirst | src-tauri/src/processor.rs:56-68 | an empty list gives "No files provided" and more than 50 paths give "Too many files", both without a file; neither depends on the file system |
| Processor.CheckOrder | src-tauri/src/processor.rs:72-127 | each per-file error (not found, directory, unreadable metadata, too large, unsupported type) arises exactly when the earlier checks pass and its own fails |
| Processor.SizeLimitIsInclusive | src-tauri/src/processor.rs:97-107 | a file of exactly 500 MiB passes the size check; one byte more is rejected with its name and size |
| Processor.ExtensionRule | src-tauri/src/processor.rs:112-126 | a readable regular file within the size limit passes exactly when it has no extension or its lower-cased extension is in the allow-list |
| Processor.FirstInvalidIsFirst | src-tauri/src/processor.rs:72-127 | the per-file error reported is that of the first failing path, and it names that path |
| Processor.NoneInvalid | src-tauri/src/processor.rs:72-127 | no per-file error is found exactly when every path passes its checks |
| Processor.FirstFailureWins | src-tauri/src/processor.rs:54-127 | for a list of 1 to 50 paths, validation fails with the first failing path's error and that path |
| Processor.ValidIff | src-tauri/src/processor.rs:54-141 | a selection is accepted exactly when it has 1 to 50 paths, every path passes, and the sizes sum to at most 1 GiB |
| Processor.ErrorsWithoutFile | src-tauri/src/processor.rs:129-138 | an error without a file, for 1 to 50 paths, is the aggregate error: every path passed, the true total exceeds 1 GiB and fits a u64, and the error carries it |
| Processor.IsImage | src-tauri/src/processor.rs:143-154 | an image has an extension that, lower-cased, is also on validation's allow-list |
| Processor.IsWebp | src-tauri/src/processor.rs:156-164 | a WebP file has an extension on the allow-list that is not one of the image extensions |
| Processor.ImageIsNeverWebp | src-tauri/src/processor.rs:143-164 | an image extension is never WebP, so `!is_webp` never changes which strategy is chosen |
| Processor.ProcessFiles | src-tauri/src/processor.rs:287-309 | an artifact is produced only for an accepted selection once the output directory exists; several files give a "zip", one image a "webp", any other single file its copy type |
| Processor.RejectedSelection | src-tauri/src/processor.rs:287-289 | a rejected selection yields validation's message, whatever the output directory, the id and the library outcomes |
| Processor.Dispatch | src-tauri/src/processor.rs:291-308 | after validation and the directory creation: one image → WebP conversion, one other file → copy, two or more → zip |
| Processor.ConvertToWebp | src-tauri/src/processor.rs:166-205 | a successful conversion read the input's metadata (its original size) and bytes, is tagged "webp" and reports the size read back from the output |
| Processor.WebpOutcome | src-tauri/src/processor.rs:166-205 | conversion succeeds exactly when every step succeeds; the artifact is tagged "webp", keeps the input's size as original size, reads back its processed size and is named `<stem>_<id>.webp` |
| Processor.WebpNameShape | src-tauri/src/processor.rs:175-181 | the WebP output name is a plain file name with extension "webp" |
| Processor.CopyFile | src-tauri/src/processor.rs:253-281 | a successful copy read the input's metadata and bytes, reports the same original and processed size and is tagged with the copy type |
| Processor.CopyOutcome | src-tauri/src/processor.rs:253-281 | a copy succeeds exactly when the metadata, the read and the copy succeed; processed size equals original size; the tag is the lower-cased extension or "bin"; the name is `<stem>_<id>.<tag>` with stem defaulting to "file" |
| Processor.WriteEntries | src-tauri/src/processor.rs:220-236 | the entry loop succeeds exactly when every input can be read and its entry written |
| Processor.ArchiveResult | src-tauri/src/processor.rs:207-251 | an archive is produced exactly when the zip file is created, every input is read and written, the archive is finished and its size read back; it is tagged "zip" and named `archive_<id>.zip` in the output directory |
| Processor.WriteEntriesOfPrefix | src-tauri/src/processor.rs:220-236 | the entry loop stops at the first input that cannot be read or written, and returns that error |
| Processor.WriteEntriesTotal | src-tauri/src/processor.rs:218-236 | when every entry is written, the u64 accumulator equals the inputs' total byte count modulo 2^64 and every input was read |
| Processor.CreateZip | src-tauri/src/processor.rs:207-251 | the archive loop returns the archive function's result; the writer holds a prefix of the intended entries (one per input, in order, named by base name or "file"), and all of them on success |
| Processor.ArchiveOutcome | src-tauri/src/processor.rs:207-251 | a successful archive is tagged "zip", is named `archive_<id>.zip`, has the inputs' byte count (mod 2^64) as original size and the read-back size as processed size |
| Processor.SumLengthsIsTotalSize | src-tauri/src/processor.rs:226-229 | on a file system whose reads match its metadata, the bytes the archive reads add up to the validated total |
| Processor.ArchiveSizeIsExact | src-tauri/src/processor.rs:218-229 | after validation the zip accumulator never wraps: the archive's original size is the exact total of the inputs, at most 1 GiB |
| Processor.ArtifactExtensionIsType | src-tauri/src/processor.rs:287-308 | every artifact's file extension is its type tag: "zip" for several files, "webp" for one image, else the copied file's lower-cased extension or "bin" |
| UploadErrors.IsTransientError | src-tauri/src/uploader.rs:26-36 | a text is transient exactly when its lower-cased form contains one of the eight markers "timeout", "connection", "temporarily", "503", "502", "504", "retry", "network" |
| UploadErrors.FriendlyError | src-tauri/src/uploader.rs:39-52 | the friendly message is always one of the three fixed texts |
| UploadErrors.ConnectionFailureIsTransient | src-tauri/src/uploader.rs:26-52 | every error blamed on the network by `friendly_error` is one the upload would retry |
| UploadErrors.OnlyTimeoutMarker | src-tauri/src/uploader.rs:26-36 | a lower-cased text without 'n', 'y' and '5' holds a transient marker exactly when it contains "timeout" |
| UploadErrors.TimedOutIsNotRetried | src-tauri/src/uploader.rs:26-52 | "timed out" is reported as a timeout but is not classified as transient |
| UploadErrors.ConnectionTimedOutIsRetried | src-tauri/src/uploader.rs:26-36 | "Connection timed out" is transient, through its "connection" marker |
| UploadErrors.SeparatorHidesMarkers | src-tauri/src/uploader.rs:26-36 | a lower-cased text ending in a space and lacking 'm', 'n', 'y' and '5', put in front of another, does not change whether a transient marker is found |
| UploadErrors.PrefixedTransience | src-tauri/src/uploader.rs:243-246 | prefixing a transport error with "Failed to upload to R2: " does not change whether it is transient |
| ObjectKeys.SanitizeName | src-tauri/src/uploader.rs:152-162 | sanitising keeps the length; kept characters (alphanumeric, '-', '_') stay in place, every other one becomes '_', and only kept characters remain |
| ObjectKeys.SanitizeFixesSafeNames | src-tauri/src/uploader.rs:152-162 | sanitising leaves a name unchanged exactly when all its characters are kept ones |
| ObjectKeys.SanitizeIsIdempotent | src-tauri/src/uploader.rs:152-162 | sanitising twice is sanitising once |
| ObjectKeys.SanitizedHasNoDotOrSlash | src-tauri/src/uploader.rs:152-164 | a sanitised stem holds neither '.' nor '/', so it cannot break the key's layout |
| ObjectKeys.UploadExtensionShape | src-tauri/src/uploader.rs:142-145 | the raw extension put in the key holds neither '.' nor '/' |
| ObjectKeys.KeyName | src-tauri/src/uploader.rs:164 | the key's last component `<id>_<safe>.<ext>` is a plain file name that splits back into `<id>_<safe>` and `<ext>` |
| ObjectKeys.ObjectKeyLayout | src-tauri/src/uploader.rs:141-164 | the key is "u/", the id, '_', then the sanitised stem; its file name is everything after "u/", its stem is `<id>_<safe stem>` and its extension is the file's raw extension |
| ObjectKeys.ObjectKey | src-tauri/src/uploader.rs:141-164 | the key starts "u/", then the id and '_', and holds no '/' after the id |
| ObjectKeys.ContentType | src-tauri/src/uploader.rs:166-177 | the content type is specific exactly for the nine listed extensions, spelt exactly so (jpg and jpeg both give image/jpeg); every other extension gets application/octet-stream |
| ObjectKeys.TrimTrailingSlashes | src-tauri/src/uploader.rs:216-217 | trimming leaves a prefix of the base that does not end in '/', and removes only '/' characters |
| ObjectKeys.PublicUrl | src-tauri/src/uploader.rs:216-217 | the URL ends in '/' and the key, has no second '/' right before that one, and begins with a prefix of the base |
| ObjectKeys.PublicUrlJoin | src-tauri/src/uploader.rs:216-217 | the URL is the base stripped of all trailing slashes, one '/', then the key; an extra trailing slash on the base changes nothing |
| Uploader.ValidateR2Credentials | src-tauri/src/uploader.rs:54-99 | credentials are accepted exactly when the client builds and the test write answers 200; the delete is sent exactly then; another status gives "Invalid R2 credentials" and an error gives `friendly_error`'s message, always one of three texts |
| Uploader.DeleteFromR2 | src-tauri/src/uploader.rs:101-132 | once the client builds, one DELETE is sent, and the call fails exactly when that attempt fails, with "Failed to delete from R2: " before the error text; a client that fails to build sends nothing and fails |
| Uploader.ShouldRetry | src-tauri/src/uploader.rs:224-256 | a status answer is retried only if it is 502, 503 or 504 |
| Uploader.AttemptResult | src-tauri/src/uploader.rs:211-258 | the upload succeeds exactly when the last answer is a 200, with the key and the file size; a transport error leaves its text behind "Failed to upload to R2: " |
| Uploader.RetryDecision | src-tauri/src/uploader.rs:224-256 | a status is retried exactly when it is 502, 503 or 504; a transport error exactly when its own text is transient |
| Uploader.UploadToR2 | src-tauri/src/uploader.rs:134-262 | a read or client failure sends nothing; otherwise 1 to 3 identical PUTs of the file's bytes under its key and content type; every attempt but the last was retryable, and stopping before the third means the last was not; the waits are the backoff sequence; the result is success with the trimmed URL, the key and the byte count on 200, else the last attempt's error |
| Uploader.RetryPut | src-tauri/src/uploader.rs:201-261 | the loop sends 1 to 3 copies of the request, goes on only after a retryable answer, stops at the first answer that is not retryable or after the third, waits the backoff sequence between attempts and returns what the last answer gives |
| Uploader.HandleAnswer | src-tauri/src/uploader.rs:207-260 | one round retries exactly when the answer is retryable and fewer than 3 attempts were made; otherwise it returns success for 200 and the status or prefixed transport error for anything else |
| Uploader.BackoffIsExponential | src-tauri/src/uploader.rs:204-254 | the k-th wait is 1000 ms times 2^k |
| Uploader.ServerErrorText | src-tauri/src/uploader.rs:225 | a 500 answer leaves the error "R2 upload failed with status: 500" |
| Uploader.RecoversAfterTwoUnavailable | src-tauri/src/uploader.rs:202-261 | two 503 answers and then a 200 give success on the third attempt, after waiting 1000 ms and then 2000 ms |
| Uploader.FailsFastOnServerError | src-tauri/src/uploader.rs:224-239 | a 500 answer is not retried: one attempt, no wait, and the error "R2 upload failed with status: 500" |
| Uploader.GivesUpAfterThreeTransientErrors | src-tauri/src/uploader.rs:242-258 | three transient errors use up the attempts: the third error is returned after waits of 1000 ms and 2000 ms |

## Left out

- src-tauri/src/main.rs is not part of this model: it holds the Tauri commands, the locked application state, the clipboard, the tray and the window. These are UI and operating-system integration.
- src-tauri/src/config.rs is not part of this model: keychain access and JSON settings files are I/O wrappers.
- UUID generation: the 8-character id is a parameter. The path lemmas require it to hold no '/', which a UUID's hex prefix satisfies.
- The floating-point "MB with one decimal" formatting in the two size messages is a caller-supplied formatter `mb`. The sizes themselves are kept exactly, in bytes.
- `to_lowercase` and `char::is_alphanumeric` are modelled on ASCII; non-ASCII letters are neither lowered nor kept by the sanitiser.
- Image decoding, WebP encoding, the zip container and Deflate are foreign libraries. Each is one outcome in `Io`, and a processed size is only the value read back from the written file.
- Processor.CreateZip: `archive` holds only fully written entries. A partial entry left behind by a failing `write_all`, and output files left on disk after an error, are not modelled.
- The model treats `exists`, `is_dir` and `fs::metadata` as independent reads of one entry. In Rust `exists` itself reads the metadata, so "Cannot read file" needs the file to change between the calls. The model keeps that branch as written.
- Processor.ArchiveSizeIsExact: assumes the bytes `create_zip` reads have the length validation read from the metadata (`Consistent`); a file changing in between is left out.
- Paths use '/' as the only separator. Windows prefixes and non-UTF-8 names (`to_str` returning None) are left out; `to_string_lossy` is the path itself.
- The S3 client is left out: request signing, the endpoint `https://<account>.r2.cloudflarestorage.com`, the "auto" region and path style. Its construction is a `ClientSetup` outcome and each request an outcome supplied by the caller.
- `tokio::sleep` and the `eprintln!` retry log: the sleeps are recorded as a list of delays in milliseconds, and the log is left out.
- Async execution and concurrency: every operation runs to completion on its own.
- The status of the DELETE in `validate_r2_credentials` and `delete_from_r2` is never inspected by the source, so it is not modelled beyond the request being sent.
