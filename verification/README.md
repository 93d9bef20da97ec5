# ComfyUI Model Downloader: a verified model of the download core

This project models the decision logic of `model_downloader.py`, the
ComfyUI node that fetches model files from Hugging Face and CivitAI into the
models directory, verifies their SHA-256 digest, retries, and keeps a
`models.ini` ledger of what it fetched. The modelled parts are:

- the subdirectory sanitiser `normalize_and_validate_path`;
- URL classification `detect_url_type`;
- the file-name chain: `extract_filename_from_url` plus the fallback in
  `download_model`;
- `verify_hash`;
- the ledger upsert `save_to_ini`;
- the retry loop of `download_model`, including the `download_file` rename
  and clean-up it relies on;
- the per-section counting loop of `ModelDownloaderFromINI.download_from_ini`.

The network, the file system, the clock and `hashlib` do not appear. Each
becomes an input:

- `world(k)` says what attempt k finds on disk and how its transfer ends;
- a digest is an `Option<string>`, `None` when the file could not be read;
- the timestamp is a string parameter;
- the working directory (for `os.path.relpath`) is a parameter;
- in the batch, `onDisk(i, ·)` and `download(i, ·)` stand for
  `os.path.exists` and `download_model` as the section at position i finds
  them. The sections run one after another on one disk, so a later section
  may see a file an earlier one downloaded (`Batch.EarlierDownloadSeen`).

Modules, in dependency order:

| module | file | models |
|---|---|---|
| `Wrappers` | wrappers.dfy | `Option` and `Result` |
| `Text` | text.dfy | the `str` operations used: `in`, `strip`, `replace`, `split`, `join`, `lower`, `str(int)` |
| `Paths` | paths.dfy | POSIX `os.path`: `isabs`, `join`, `basename`, `dirname`, `normpath`, `relpath` |
| `Sanitiser` | sanitiser.dfy | `normalize_and_validate_path` |
| `Urls` | urls.dfy | `detect_url_type`, `extract_filename_from_url`, the name fallback |
| `HashCheck` | hashcheck.dfy | `verify_hash` |
| `Ledger` | ledger.dfy | `save_to_ini`, and the `%` check `ConfigParser.set` applies |
| `Fetcher` | fetcher.dfy | `download_model` and the parts of `download_file` it depends on |
| `Batch` | batch.dfy | `download_from_ini` |

`Fetcher.Download` is the run as a function, with `Fetcher.Loop` for the
retry loop. `Fetcher.DownloadModel` is the same run written as a `while`
loop and proved equal to it. Likewise `Batch.Tallied` is the counters as a
function and `Batch.Reconcile` the counting loop proved to produce them.

Points where the code behaves in a way a reader might not expect, each
stated by a lemma:

- **Duplicate URLs.** The code does not prevent two ledger sections with
  the same URL. It only looks along the chain `name`, `name_1`, `name_2`, …
  and stops at the first free name. A free bare name in front of a
  `name_1` that already records the URL therefore produces a second
  section with that URL (`Ledger.DuplicateUrlPossible`).
- **The rename.** The CivitAI rename after a Content-Disposition header
  (lines 256-257) needs an empty final path component. A derived file name
  is never empty, so that case never renames
  (`Fetcher.DerivedNameNeverRenamed`). A caller-supplied name ending in `/`
  does leave the final component empty, and then the rename does happen
  (`Fetcher.GivenDirectoryNameRenamed`).
- **Escaping exceptions.** The file-name fallback (lines 307-310) lies
  outside every `try` of `download_model`. When `urlparse` raises there
  ("Invalid IPv6 URL", for a network location with one square bracket
  but not the other), the exception leaves `download_model`. The model
  gives this as the status `Fetcher.Escaped`; the batch loop catches it
  and counts the section as failed (`Batch.Crashed`).
- **Failed identifiers.** The summary `download_from_ini` returns holds
  only the four counters. The list of failed sections is kept by the loop
  (`Batch.Tally.failedModels`) but only printed.
- **As written and corrected.** The batch members take a flag
  `asWritten`. `Batch.DownloadFromIni(true, …)`, `Batch.Reconcile(true, …)`
  and `Batch.Tallied(true, …)` are the code: the raw-subdirectory skip probe
  and the "Error"-anywhere success test of lines 516-533. With `false` they
  use the corrected probe and test of the Findings below. Likewise
  `Ledger.RecordAsWritten` is the code's save, which fails on a value that
  ConfigParser's interpolation rejects, and `Ledger.Record` the corrected
  save that stores every value as given.

## Model

| member | source | states |
|---|---|---|
| `Sanitiser.Sanitise` | model_downloader.py:132-204 | A blank subdirectory gives "checkpoints". Otherwise it is rejected as absolute exactly when it starts with '/'; else as a drive path exactly when ':' is its second character; else for ".." exactly when it contains "..". Past these checks, a subdirectory that normalises to "" gives "checkpoints"; one whose normal form has an empty component ("a\\\\b" becomes "a//b") is rejected for it, and exactly then; any other is accepted as its normal form. Anything accepted is a safe relative path: non-empty, no "..", no backslash, no leading or trailing '/', no empty component. |
| `Sanitiser.DoubledBackslashIsEmptyComponent` | model_downloader.py:173-202 | Two backslashes in a row pass the checks before normalisation and become an empty component: "a\\\\b" is rejected for it. |
| `Sanitiser.NormPathOneComponent` | model_downloader.py:173 | normpath leaves a single component other than "." and ".." unchanged. |
| `Sanitiser.DefaultIsSafe` | model_downloader.py:145-147 | The default "checkpoints" is itself a safe relative path. |
| `Sanitiser.ParentRecheckUnreachable` | model_downloader.py:188-193 | After the first ".." check has passed, normalisation cannot produce "..". So the second check never fires on POSIX. |
| `Sanitiser.SanitiseAcceptsCanonical` | model_downloader.py:172-204 | A path already in normal form is accepted unchanged. |
| `Sanitiser.DotIsAcceptedAsRoot` | model_downloader.py:173-186 | "." and "./" are accepted as ".". Joined onto the models root, "." names the root itself: normpath never returns "", so the default fallback does not catch it. |
| `Sanitiser.SanitisedStaysUnderRoot` | model_downloader.py:164-204 | An accepted subdirectory joined onto any root normalises to the root's components followed by the subdirectory's own components, none of which is "..". |
| `Sanitiser.SafeRelativeIsPlain` | model_downloader.py:195-202 | An accepted path without "." components consists of proper names only: no empty, "." or ".." component. |
| `Urls.DetectUrlType` | model_downloader.py:109-116 | Each of the three outcomes holds exactly when its substring condition does: Hugging Face when the URL contains "huggingface.co"; CivitAI when it does not but contains "civitai.com"; unknown when it contains neither. |
| `Urls.HuggingFaceTakesPrecedence` | model_downloader.py:111-114 | A URL that contains both "huggingface.co" and "civitai.com" is classified as Hugging Face. |
| `Urls.CivitAIUrlMentioningHuggingFace` | model_downloader.py:111-114 | Concretely, a CivitAI download URL that mentions "huggingface.co" only in its query is classified as Hugging Face. |
| `Urls.ExtractFilename` | model_downloader.py:118-130 | CivitAI gives no name, and only CivitAI does. Any name extracted contains no '/'. The only exception is `urlparse`'s "Invalid IPv6 URL": it is raised only when the URL's path cannot be parsed, and, for a URL that reaches `urlparse` (an unknown provider, or Hugging Face without a `/resolve/` match), exactly then. |
| `Urls.UrlPathOf` | model_downloader.py:130 | For `scheme://host/path` and an optional query or fragment, with a host free of separators and with paired brackets, `urlparse` gives the path, cut at the first ';' of its last segment when the scheme takes parameters. |
| `Urls.UnpairedBracketRaises` | model_downloader.py:130 | A host with '[' but not ']', or the reverse, makes `urlparse` raise "Invalid IPv6 URL", so no name is extracted. |
| `Urls.LastSegmentWithoutParams` | model_downloader.py:130 | Dropping a path's parameters cuts its last segment at its first ';' and leaves the segment boundaries alone. |
| `Urls.HuggingFaceNameIsLastSegment` | model_downloader.py:120-124 | For `…/resolve/<rev>/<file>[?query]` with no earlier marker, the extracted name is the last '/'-segment of `<file>`. The lazy group stops at the first '?'. |
| `Urls.OtherUrlNameIsLastPathSegment` | model_downloader.py:129-130 | For `scheme://host/path` followed by an optional query or fragment, the fallback name is the last segment of the path, up to its first ';' when the scheme takes parameters (http, https, ftp, …); query and fragment play no part. |
| `Urls.HuggingFaceWithoutMarker` | model_downloader.py:120-130 | A Hugging Face URL without "/resolve/" gets its name from the path, exactly as a URL of no known provider does. |
| `Urls.ResolveFilename` | model_downloader.py:306-310 | A caller's name is used as given. Otherwise an extracted non-empty name is used, an extracted empty name or CivitAI's missing one gives "downloaded_model.safetensors", and the result has no '/'. The result fails exactly when no name is given and the extraction raises; a result is never empty. |
| `Urls.HuggingFaceResolvedName` | model_downloader.py:120-124 | Without a given name, a `…/resolve/<rev>/<file>[?query]` URL with no earlier marker is saved under the last segment of `<file>`, or under the default name when that segment is empty. |
| `Urls.DerivedNameIsFinalComponent` | model_downloader.py:306-314 | A derived name is exactly the final component of the target path. |
| `HashCheck.VerifyHash` | model_downloader.py:218-233 | An empty expected hash passes. An unreadable file fails any non-empty expected hash. |
| `HashCheck.VerifyHashIsCaseless` | model_downloader.py:227-228 | For a non-empty expected hash, the check passes exactly when the two strings agree character by character up to ASCII case. |
| `HashCheck.UpperCaseExpectedAccepted` | model_downloader.py:228 | Writing the expected hash in capitals never changes the verdict. |
| `HashCheck.VerifyAgainstHexDigest` | model_downloader.py:206-228 | Against a lower-case hex digest, the check passes exactly when the expected hash is empty or lower-cases to that digest. |
| `HashCheck.UnreadableNeverVerifies` | model_downloader.py:220-225 | A passing check means the expected hash was empty or a digest was computed and matches it. |
| `Ledger.CandidateInjective` | model_downloader.py:47 | The names `base`, `base_1`, `base_2`, … are pairwise distinct. |
| `Ledger.ChooseIndex` | model_downloader.py:40-48 | The search stops at the first name in the chain that is free or already records the URL. Every name before it is taken by a section with a different URL. |
| `Ledger.Fields` | model_downloader.py:54-61 | url, subdirectory, filename, filepath and timestamp are set to the given values. The hash is set only when given, so an earlier hash survives a save without one. Every other option is kept. |
| `Ledger.TargetIsDefaultOnlyForBase` | model_downloader.py:40-52 | The chosen section is "DEFAULT" exactly when the file name's base is "DEFAULT". A suffixed name never is. |
| `Ledger.Record` | model_downloader.py:22-61 | The corrected save, which stores values without interpolation (the code's save is `Ledger.RecordAsWritten`). It fails exactly when the section would be "DEFAULT" or the path is empty. Otherwise the chosen section holds the previous options of that section updated as `Ledger.Fields` states, with the URL and the path relative to the models root. Every other section is unchanged. The section set grows by at most that name, and the order gains it only when new. |
| `Ledger.RecordKeepsValid` | model_downloader.py:50-58 | Saving keeps the ledger well formed: distinct names, order and map in agreement, no "DEFAULT". |
| `Ledger.RecordIdempotent` | model_downloader.py:39-61 | Saving the same download twice with the same timestamp gives the ledger one save gives. The second save lands on the same section. |
| `Ledger.DuplicateUrlPossible` | model_downloader.py:43-48 | When the bare name is free and `name_1` already records the URL, a save adds a second section with that URL. |
| `Ledger.PlainValueSettable` | model_downloader.py:55-61 | A value without '%' always passes ConfigParser's interpolation check. |
| `Ledger.LonePercentNotSettable` | model_downloader.py:55 | A '%' that starts neither "%%" nor "%(", as in a percent-encoded URL, fails the check. |
| `Ledger.RecordAsWritten` | model_downloader.py:33-61 | As written, a save succeeds exactly when the corrected save does and every value passes the interpolation check; when it succeeds, it writes the same ledger. |
| `Ledger.PercentEncodedUrlNotRecorded` | model_downloader.py:55 | As written, a download from a URL containing a lone '%' is never recorded. |
| `Paths.RelPathBelowRoot` | model_downloader.py:58 | Take an absolute root, a relative path of proper names and a plain file name. Then `relpath(root/sub/name, root)` is `sub/name`, whatever the working directory. |
| `Fetcher.StatusTextMarksSuccess` | model_downloader.py:291-393 | Every status text is non-empty. It starts with '✓' exactly on success; every failure starts with "Error: ". |
| `Fetcher.Prepare` | model_downloader.py:291-310 | An empty URL, an unknown provider and a rejected subdirectory are reported in that order, the last with the sanitiser's message. An exception from the name extraction escapes. Otherwise the plan keeps the detected provider, the sanitised subdirectory and the resolved name, and the target is `root/sub/name`, never empty. |
| `Fetcher.PlanFor` | model_downloader.py:312-313 | Given the provider, the sanitised directory and a non-empty name, the target path is the directory joined with the name, and is never empty. |
| `Fetcher.RunAttempt` | model_downloader.py:324-391 | One attempt starts at most one transfer. It ends the run with success exactly when it finds a file that passes the check or its transfer delivers one that does. A failed attempt asks for another exactly when it is not the last one: it never ends the run without success before the last attempt. It returns a path and asks for a ledger entry exactly on success. Its failure statuses carry `max_retries`. One that gives up on a hash mismatch ends by removing the file it just fetched. |
| `Fetcher.AttemptEffects` | model_downloader.py:346-369 | An attempt that found no verified file does, in order: remove the file that failed the check (if one was found), one transfer, then remove what the transfer left behind (the partial file of a failed transfer, or a delivered file that fails the check). |
| `Fetcher.AttemptClearsBeforeFetch` | model_downloader.py:330-352 | An attempt that finds a file failing the check removes it and then starts its transfer; one that finds no file starts with the transfer. |
| `Fetcher.AttemptDownloads` | model_downloader.py:352-380 | An attempt whose transfer delivers a file that passes the check (and that found no verified file) ends the run with "Successfully downloaded", the target path and its ledger entry. |
| `Fetcher.MismatchRetried` | model_downloader.py:355-361 | A delivered file that fails the check, before the last attempt, is removed and the next attempt runs. |
| `Fetcher.Loop` | model_downloader.py:323-393 | The run extends the operations already done. A path and an entry come exactly on success, and the entry names that path. "Unknown error" happens exactly when no attempt is left. A run that ends in a hash mismatch ends by removing the file it just fetched. |
| `Fetcher.LoopStep` | model_downloader.py:323-391 | An attempt either ends the run with its own operations appended, or hands over to the next attempt with them appended. |
| `Fetcher.RetryLoop` | model_downloader.py:323-393 | The `while` loop computes the recursive loop's outcome and starts at most `max_retries` transfers. |
| `Fetcher.DownloadModel` | model_downloader.py:287-393 | The method computes `download_model`'s outcome and never starts more than `max_retries` transfers (none when `max_retries` < 1). |
| `Fetcher.RejectedTouchesNothing` | model_downloader.py:291-304 | A request rejected by the pre-checks creates no directory, starts no transfer, returns no path and records nothing. |
| `Fetcher.SuccessMeansPath` | model_downloader.py:323-393 | A path is returned, and an entry recorded, exactly on success. "Unknown error" happens exactly when the request passes the checks and `max_retries` < 1. |
| `Fetcher.ExistingVerifiedFileKept` | model_downloader.py:331-345 | A file present and verified at the first attempt is returned as is; only the directory creation happens. |
| `Fetcher.VerifiedDownloadReturned` | model_downloader.py:320-380 | When the first attempt's transfer delivers a file that passes the check (any file when no hash is expected), the run returns it: directory creation, removal of a found file that failed the check, one transfer, then success with that path and its ledger entry. |
| `Fetcher.MismatchedFileReplaced` | model_downloader.py:320-352 | A file found at the first attempt that fails the check is removed right after the directory creation, and exactly one transfer follows before anything else. |
| `Fetcher.NeverAcceptsUnverified` | model_downloader.py:331-358 | With a non-empty expected hash, if no existing or downloaded file ever verifies, the run fails with no path and no ledger entry. |
| `Fetcher.AllTransfersFail` | model_downloader.py:380-391 | If every attempt finds no file and its transfer raises, the run reports the last error with `max_retries`, returns no path, and has started exactly `max_retries` transfers. |
| `Fetcher.DerivedNameNeverRenamed` | model_downloader.py:249-257 | Without a caller-supplied name, the Content-Disposition rename never changes the target. |
| `Fetcher.GivenDirectoryNameRenamed` | model_downloader.py:253-257 | For CivitAI with a target ending in '/', a suggested name replaces the empty final component, and it becomes the file's basename. |
| `Fetcher.TargetUnderRoot` | model_downloader.py:313-314 | With a plain file name, the target normalises to the root's components, then the sanitised subdirectory's, then the name. |
| `Fetcher.StoredPathIsSubdirectoryAndName` | model_downloader.py:58 | Take an absolute root, a subdirectory without "." components and a plain name. Then the ledger stores the target as `<subdirectory>/<name>`. |
| `Batch.IniPath` | model_downloader.py:446-449 | A blank path argument means the default ledger file; any other is used as given. |
| `Batch.SectionRequest` | model_downloader.py:505-508 | A section yields a request exactly when none of its four reads raises. Missing options take their fallbacks: "checkpoints", "" and "". |
| `Batch.Judge` | model_downloader.py:498-545 | A section without a url fails. A section is skipped exactly when skipping is on, a file name is given and the probed file exists when the loop reaches that section. It succeeds exactly when it is not skipped and the success test accepts what `download_model` returned for that section. |
| `Batch.ClassifyAgreesWithOutcome` | model_downloader.py:533-540 | The corrected success test counts exactly the runs of `download_model` that succeeded. |
| `Batch.ErrorNamedFileMiscounted` | model_downloader.py:533 | As written, a successful download of a file whose name contains "Error" is counted as a failure. The corrected test counts it as a success. |
| `Batch.ErrorNamedFileExample` | model_downloader.py:533 | Concretely, "Error.safetensors" downloaded successfully is counted as failed. |
| `Batch.AbsoluteSubdirectorySkipped` | model_downloader.py:516-522 | As written, a section with an absolute subdirectory whose probed file exists is skipped, although `download_model` rejects it. The corrected probe does not skip it. |
| `Batch.SkipProbeIsTarget` | model_downloader.py:516-522 | The corrected skip probe is exactly the path `download_model` would download a caller-named file to. |
| `Batch.EarlierDownloadSeen` | model_downloader.py:492-533 | Two consecutive sections for the same subdirectory and file name, with skipping on: if the first finds the file absent, downloads it to the probed path, and the file is still there when the loop reaches the second, then the first counts as a success and the second as skipped. |
| `Batch.CountsPartition` | model_downloader.py:483-545 | Every section is counted exactly once: successes, skips and failures add up to the number of sections. |
| `Batch.FailedNamesCount` | model_downloader.py:498-545 | The failure list has one entry per failed section. A name is on it exactly when a section of that name failed. |
| `Batch.Tallied` | model_downloader.py:483-489 | For either reading of the tests, the three counters add up to the total, which is the number of sections, and the failure list is as long as the failure count. |
| `Batch.Reconcile` | model_downloader.py:492-545 | The counting loop, as written (`true`) or corrected (`false`), produces exactly the counters and failure list of that reading's verdicts. |
| `Batch.TallyStep` | model_downloader.py:498-545 | One more section adds one to the counter of its verdict, and its name to the failure list exactly when it failed. |
| `Batch.TalliesAgree` | model_downloader.py:516-540 | When every section gets the same verdict from the code's tests and the corrected ones, the two loops give the same counters. |
| `Batch.FailedCountsDiffer` | model_downloader.py:516-540 | A single section that fails under the code's tests but not under the corrected ones, all others agreeing, raises the code's failure count by exactly one. |
| `Batch.StatusMessage` | model_downloader.py:564-576 | The status line starts with '✓' exactly when nothing failed. |
| `Batch.SummaryReadsBack` | model_downloader.py:566-571 | The four-line summary reads back as the four counters it was made from. |
| `Batch.DownloadFromIni` | model_downloader.py:436-576 | With `asWritten` true this is the code; with false the corrected tests. A missing file, an unreadable file and a file without sections each give an error status and an empty summary. Otherwise the status and summary are those of the counters. The status starts with '✓' exactly when the file had sections and none failed. |

## Left out

- HTTP (`requests`), streaming, the `content-length` progress display and
  all printing. A transfer is an abstract outcome that either delivers or
  raises, perhaps leaving a partial file.
- How the Content-Disposition header is matched (`filename="?([^"]+)"?`). The
  suggested name is an input.
- `hashlib` and reading the file. A digest is an input.
- File-system failures of `os.makedirs`, `os.remove` and `open` outside the
  transfer. These are exceptions the model does not raise.
- The user's file name is not validated by the source, so it may contain
  ".." or '/'. `Fetcher.TargetUnderRoot` and
  `Fetcher.StoredPathIsSubdirectoryAndName` therefore assume a plain name.
- configparser text parsing and writing. The ledger is the parsed sections
  in order.
- Ledger reading details: read-side interpolation, values inherited from
  the DEFAULT section, and option order are not modelled. In the batch, a
  read that raises is an input (`None`).
- `datetime.now()`. The timestamp is a parameter.
- Windows `os.path` behaviour: backslash separators, drive letters in
  `isabs`, `ntpath.normpath`. The model uses POSIX `posixpath`.
- `str.lower` beyond ASCII: only the letters A-Z are lower-cased, which
  is all a hexadecimal digest or a URL scheme needs.
- `re` corner cases in the Hugging Face pattern: `$` before a final newline,
  and newlines (which `.` does not match).
- Parts of `urlparse` that do not bear on the path: the validation of a
  bracketed IPv6 host (only an unpaired bracket is modelled), the NFKC
  check of the network location, and the stripping of control characters
  and surrounding whitespace.
- The UI schema (`INPUT_TYPES`, `RETURN_TYPES`) and node registration,
  which hold no logic.
- `Batch.Judge`: what a section's download does to the disk is not
  derived from `Fetcher`. The disk each section sees, `onDisk(i, ·)`, is an
  input, so the model does not promise that an earlier download is still
  present later. `Batch.EarlierDownloadSeen` states the consequence when it is.
- `HashCheck.VerifyHash`: its own contract only fixes the empty-hash and
  unreadable cases. The comparison itself is stated by
  `HashCheck.VerifyHashIsCaseless`.

## Findings

| source | as written | input that shows it | evidently intended | confidence | as-written member | corrected member |
|---|---|---|---|---|---|---|
| model_downloader.py:533 | success is `filepath and "Error" not in status`, and a success status embeds the file's basename | a section whose file is "Error.safetensors", downloaded and verified: `download_model` returns "✓ Successfully downloaded: Error.safetensors" with its path, and the section is counted as failed | count a section as a success when `download_model` succeeded | high; not executed | `Batch.ErrorNamedFileMiscounted` | `Batch.ClassifyAgreesWithOutcome` |
| model_downloader.py:516-522 | the skip check probes `join(base_path, subdirectory, filename)` with the raw subdirectory | a section with subdirectory "/tmp" and filename "a.ckpt" where "/tmp/a.ckpt" exists: it is counted as skipped, though `download_model` rejects absolute paths | probe the file `download_model` would produce, from the sanitised subdirectory | medium; not executed | `Batch.AbsoluteSubdirectorySkipped` | `Batch.SkipProbeIsTarget` |
| model_downloader.py:55 | `config.set` on a `ConfigParser` with default interpolation raises on a lone '%', and `download_model` swallows the error | a download from `https://huggingface.co/u/r/resolve/main/my%20model.safetensors` succeeds but no ledger entry is written | record every successful download | medium; not executed | `Ledger.PercentEncodedUrlNotRecorded` | `Ledger.Record` |
