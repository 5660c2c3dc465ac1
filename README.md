# File-upload widget: upload list, lifecycle rules and keyword highlighter

A Dafny model of the logic inside a small React file-upload widget:

- **the upload list store** (`UploadStore`): an ordered list of upload records (id, file, progress, status, error) with its five actions: add, remove, set progress, set status and error, clear. `Store` is a class whose `files` field each action replaces. Each new list is given by a pure function of the old one, and those functions carry the "nothing else changes" and "no-op on an absent id" lemmas.
- **the home screen's lifecycle rules** (`Home`):
  - format and size validation;
  - starting an upload;
  - the progress and error callbacks, modelled as events applied to the list in any order;
  - retry, the format toggles and the "in progress" flag.
  - `Page` is the screen, holding the shared store, the allowed formats and the size limit.
- **the progress percent** (`UploadProgress`): `Math.round(loaded * 100 / (total || 1))` in exact integer arithmetic.
- **the file picker** (`FileUploader`): the batch loop of `handleFiles` as a method with its loop invariants, the prop defaults, and the two texts it hands to the highlighter.
- **one row of the list** (`UploadItem`): name truncation, the failure label, the status-to-action dispatch and what each click does, the size flag and the progress-bar condition.
- **the keyword highlighter** (`Highlighter`, `HighlightProps`, `HighlightExamples`): the `content` loop of `TypographyWithKeywords`.
  - The loop is a method (`Content`, `SegmentsLoop`, `Turn`) proved equal to a recursive specification `Segments`.
  - The round trip, leftmost and longest choice, tagging and the behaviour on an empty keyword are proved about `Segments`.
  - Worked inputs (a keyword in another case, a keyword that starts a longer one, the drop-zone title) are proved for arbitrary pieces of text and then applied to the concrete strings.

Strings are `seq<char>` (Unicode scalar values; see "Left out"), and `toLowerCase` is a per-character map on ASCII letters. Ids drawn from `Date.now()` are passed in by the caller. The upload and delete requests are not modelled: only their callbacks are, and the delete outcome is a flag.

An empty keyword does not make the loop spin. With `""` among the keywords, `indexOf("")` is 0, so the reduce always picks index 0 of the remaining text. While a non-empty keyword starts there, `find` returns that keyword and the loop goes on. At the first turn where none does, `find` returns the falsy `""` and `if (!matchedKeyword) break;` leaves the loop. Everything left is silently dropped, including any text before the next keyword. The model keeps this behaviour; see "Findings".

## Model

| member | source | states |
|---|---|---|
| UploadStore.Removed | src/store/uploadStore.ts:21-24 | the filtered list holds exactly the records of the old list whose id differs, and is no longer |
| UploadStore.WithProgress | src/store/uploadStore.ts:26-31 | same length; each record with the id gets the new progress, every other record is unchanged |
| UploadStore.WithStatus | src/store/uploadStore.ts:33-38 | same length; each record with the id gets the new status and error together, every other record is unchanged |
| UploadStore.Store.constructor | src/store/uploadStore.ts:13-14 | the store starts with an empty list |
| UploadStore.Store.AddFile | src/store/uploadStore.ts:16-19 | the new list is the old one with the record appended |
| UploadStore.Store.RemoveFile | src/store/uploadStore.ts:21-24 | the new list is the old one without the id's records |
| UploadStore.Store.UpdateFileProgress | src/store/uploadStore.ts:26-31 | the new list is the old one with the id's progress replaced |
| UploadStore.Store.UpdateFileStatus | src/store/uploadStore.ts:33-38 | the new list is the old one with the id's status and error replaced |
| UploadStore.Store.ClearFiles | src/store/uploadStore.ts:40 | the list becomes empty |
| UploadStore.AddAppendsAtTail | src/store/uploadStore.ts:16-19 | adding grows the list by one, puts the record last and keeps every earlier record in place |
| UploadStore.AddKeepsUniqueIffFresh | src/store/uploadStore.ts:16-19 | on a one-record-per-id list, adding keeps one record per id exactly when the id is fresh |
| UploadStore.RemovedAppend | src/store/uploadStore.ts:21-24 | removal distributes over concatenation, so survivors keep their relative order |
| UploadStore.RemoveAbsent | src/store/uploadStore.ts:21-24 | removing an absent id leaves the list unchanged |
| UploadStore.RemoveIdempotent | src/store/uploadStore.ts:21-24 | removing twice equals removing once |
| UploadStore.RemoveKeepsUnique | src/store/uploadStore.ts:21-24 | removal keeps a one-record-per-id list one-record-per-id |
| UploadStore.ProgressChangesOnlyProgress | src/store/uploadStore.ts:26-31 | ids, files, statuses and errors are unchanged; progress is the given value, unclamped, exactly on the id's records |
| UploadStore.ProgressAbsent | src/store/uploadStore.ts:26-31 | a progress update for an absent id is a no-op |
| UploadStore.ProgressIdempotent | src/store/uploadStore.ts:26-31 | a progress update applied twice equals applying it once |
| UploadStore.StatusChangesOnlyStatus | src/store/uploadStore.ts:33-38 | ids, files and progress are unchanged; status and error are set together on the id's records, other records are unchanged |
| UploadStore.StatusAbsent | src/store/uploadStore.ts:33-38 | a status update for an absent id is a no-op |
| UploadStore.StatusIdempotent | src/store/uploadStore.ts:33-38 | a status update applied twice equals applying it once |
| UploadStore.AddProgressComplete | src/store/uploadStore.ts:16-38 | add as uploading at 0, set progress 55, set completed: exactly one record is appended (55, completed, no error) and the rest is untouched |
| UploadStore.AddProgressCompleteScenario | src/store/uploadStore.ts:13-38 | on a fresh store, the same session leaves exactly the one record f1 at 55, completed, with no error |
| UploadStore.StepKeepsUnique | src/store/uploadStore.ts:16-40 | any one of the five actions keeps a one-record-per-id list one-record-per-id, an add provided its id is not listed |
| UploadStore.RunKeepsUnique | src/store/uploadStore.ts:16-40 | over any run of adds, removes, progress and status updates and clears, the list stays one-record-per-id as long as each add uses an id not listed at that moment |
| Text.IndexOfSpec | src/components/TypographyWithKeywords.tsx:56 | `indexOf` is -1 exactly when the needle does not occur; otherwise it is an occurrence with none before it |
| Text.JoinContains | src/components/FileUploader.tsx:144 | every part of a `join` occurs in the joined string |
| UploadProgress.Divisor | src/core/api/upload/uploadFile.ts:28 | `total \|\| 1` is at least 1 and is the total when the total is present and non-zero |
| UploadProgress.Percent | src/core/api/upload/uploadFile.ts:28 | `Math.round` of the percent: the result lies within half a unit of `100 * loaded / t`, a half rounding up |
| UploadProgress.PercentUnique | src/core/api/upload/uploadFile.ts:28 | any integer in that half-open window is the percent |
| UploadProgress.PercentOfNothing | src/core/api/upload/uploadFile.ts:28 | nothing loaded reports 0 |
| UploadProgress.PercentOfAll | src/core/api/upload/uploadFile.ts:28 | everything loaded of a positive total reports 100 |
| UploadProgress.PercentWithoutTotal | src/core/api/upload/uploadFile.ts:28 | with a missing or zero total the report is `100 * loaded` |
| UploadProgress.PercentMonotone | src/core/api/upload/uploadFile.ts:28 | more bytes loaded never reports less |
| UploadProgress.PercentInRange | src/core/api/upload/uploadFile.ts:28 | within a positive total the report is between 0 and 100 |
| UploadProgress.PercentHundredFrom | src/core/api/upload/uploadFile.ts:28 | within the total, the report is 100 exactly when `200 * loaded >= 199 * total` |
| UploadProgress.EarlyCompletion | src/core/api/upload/uploadFile.ts:28 | 995 of 1000 bytes already report 100; 994 report 99 |
| Home.IsFormatAllowed | src/components/screens/home/Home.tsx:70-74 | true exactly when some format equals the MIME type or ends the name, both ignoring case |
| Home.ValidateFile | src/components/screens/home/Home.tsx:70-90 | the verdict carries an error exactly when it is invalid, and a valid file has an allowed format and a size within `maxSize` MB |
| Home.FormatCheckedFirst | src/components/screens/home/Home.tsx:77-80 | an unsupported file reports the format error whatever its size; an empty format list rejects every file |
| Home.SizeChecked | src/components/screens/home/Home.tsx:77-90 | valid exactly when the format is allowed and the size is at most `maxSize` MB; a supported invalid file reports `Too Large`; valid exactly when there is no error |
| Home.SizeLimitExample | src/components/screens/home/Home.tsx:82-87 | at the 10 MB default, 10485760 bytes pass and 10485761 bytes are too large |
| Home.TooLargeExample | src/components/screens/home/Home.tsx:82-87 | a 12 MB file named photo.jpg is too large at the 10 MB default |
| Home.UnsupportedExample | src/components/screens/home/Home.tsx:77-80 | a file named cat.gif of type image/gif is unsupported under the default formats |
| Home.Apply | src/components/screens/home/Home.tsx:37-48 | one callback keeps the length, every id and every file, and leaves the records of other ids unchanged |
| Home.ApplyAll | src/components/screens/home/Home.tsx:37-48 | callbacks in sequence keep the length, every id and every file |
| Home.ProgressEvent | src/components/screens/home/Home.tsx:37-43 | a progress callback keeps length, ids and files; it stores the percent on its records; only 100 makes them completed with no error; other records are unchanged |
| Home.ErrorEvent | src/components/screens/home/Home.tsx:45-48 | an error callback makes its records failed with the message and leaves progress and other records alone |
| Home.EventsKeepShape | src/components/screens/home/Home.tsx:37-48 | callbacks in any order never add, drop or reorder records, and leave records of unmentioned ids unchanged |
| Home.EventsKeepUnique | src/components/screens/home/Home.tsx:37-48 | callbacks keep a one-record-per-id list one-record-per-id |
| Home.EventsForAbsentIds | src/components/screens/home/Home.tsx:37-48 | callbacks for ids no longer listed change nothing |
| Home.LateErrorOverridesCompletion | src/components/screens/home/Home.tsx:37-48 | an error after the 100% report leaves the record failed with the message at progress 100 |
| Home.FindRecord | src/components/screens/home/Home.tsx:54 | `find` finds nothing exactly when the id is absent, and otherwise a listed record with that id |
| Home.FindRecordFirst | src/components/screens/home/Home.tsx:54 | `find` returns the first record with the id |
| Home.Retry | src/components/screens/home/Home.tsx:53-66 | retrying an unlisted id changes nothing; every record afterwards is an old one, one of the retried id, or the new upload's |
| Home.RetryAbsent | src/components/screens/home/Home.tsx:53-55 | retrying an absent id does nothing |
| Home.RetryValid | src/components/screens/home/Home.tsx:56-60 | a retried file that validates leaves the list without the old id plus one new uploading record at the tail |
| Home.RetryInvalid | src/components/screens/home/Home.tsx:61-63 | a retried file that fails validation stays in place, failed with the validation error; every other record is unchanged |
| Home.RetryKeepsUnique | src/components/screens/home/Home.tsx:53-66 | with a fresh new id, a retry keeps one record per id |
| Home.Without | src/components/screens/home/Home.tsx:166 | the filter keeps exactly the formats that differ from the toggled one |
| Home.WithoutAppend | src/components/screens/home/Home.tsx:166 | switching off keeps the other formats in their order |
| Home.WithoutAbsent | src/components/screens/home/Home.tsx:166 | switching off a format that is not listed changes nothing |
| Home.ToggleOnThenOff | src/components/screens/home/Home.tsx:162-168 | switching on lists the format; on then off restores a list that lacked it |
| Home.AnyUploading | src/components/screens/home/Home.tsx:114 | in progress exactly when some record is uploading |
| Home.UploadStartsProgress | src/components/screens/home/Home.tsx:25-33 | after an upload starts, the screen is in progress |
| Home.Page.constructor | src/components/screens/home/Home.tsx:12-13 | the formats start as `.JPG` and `.PNG` and the limit as 10 MB |
| Home.Page.HandleUpload | src/components/screens/home/Home.tsx:25-33 | appends one record with the given id, progress 0, uploading, no error |
| Home.Page.OnProgress | src/components/screens/home/Home.tsx:37-43 | the list becomes the progress event applied to the old list |
| Home.Page.OnError | src/components/screens/home/Home.tsx:45-48 | the list becomes the error event applied to the old list |
| Home.Page.OnUploadProgress | src/core/api/upload/uploadFile.ts:27-30 | one request progress event is one progress callback carrying the rounded percent |
| Home.Page.HandleRetry | src/components/screens/home/Home.tsx:53-66 | the list becomes the retry outcome of the old list under the screen's formats and limit |
| Home.Page.ToggleFormat | src/components/screens/home/Home.tsx:162-203 | a toggle switched on appends its format and switched off filters it out; the size limit is unchanged |
| Home.Page.SetMaxSize | src/components/screens/home/Home.tsx:143-151 | the slider sets the limit and leaves the formats unchanged |
| Highlighter.SortByLength | src/components/TypographyWithKeywords.tsx:24-27 | the sorted copy is longest first and a permutation of the keywords |
| Highlighter.MissingKeywords | src/components/TypographyWithKeywords.tsx:30-44 | reports exactly the keywords with no case-insensitive occurrence in the text, and is empty exactly when all occur |
| Highlighter.FirstIndexSpec | src/components/TypographyWithKeywords.tsx:54-60 | the reduce is -1 exactly when no keyword occurs; otherwise it is the smallest first-occurrence index |
| Highlighter.FindAtSpec | src/components/TypographyWithKeywords.tsx:67-72 | `find` returns a keyword whose first occurrence is at the index, and nothing only when there is none |
| Highlighter.TagFrom | src/components/TypographyWithKeywords.tsx:87 | `findIndex` is the first index whose keyword equals the match ignoring case, or -1 when none does |
| Highlighter.NextStep | src/components/TypographyWithKeywords.tsx:53-74 | a match is a non-empty sorted keyword occurring, ignoring case, at the chosen index |
| Highlighter.StepOf | src/components/TypographyWithKeywords.tsx:62-74 | the turn's outcome is told by the reduced index and the found keyword: -1 pushes the rest, a falsy keyword breaks, otherwise a match |
| Highlighter.Pieces | src/components/TypographyWithKeywords.tsx:76-96 | one match's parts spell out the text up to the end of the match |
| Highlighter.Segments | src/components/TypographyWithKeywords.tsx:53-98 | the loop ends with no parts for a non-empty text only when "" is among the keywords |
| Highlighter.SegmentsPrefix | src/components/TypographyWithKeywords.tsx:53-98 | the parts always spell out a prefix of the text: nothing is altered or reordered, at most the end is lost |
| Highlighter.Highlight | src/components/TypographyWithKeywords.tsx:47-101 | the rendered parts spell out a prefix of the text, and a non-empty text renders to nothing only when "" is a keyword |
| Highlighter.HighlightCorrected | src/components/TypographyWithKeywords.tsx:47-101 | with "" left out of the search, the parts spell out a prefix of the text, and a non-empty text always renders something |
| Highlighter.Turn | src/components/TypographyWithKeywords.tsx:54-97 | a stopping turn pushes all that is left of the parts; otherwise it pushes the first parts and leaves a strictly shorter suffix of the remaining text |
| Highlighter.SegmentsLoop | src/components/TypographyWithKeywords.tsx:50-100 | the `while` loop's parts are the specified segments of the text |
| Highlighter.Content | src/components/TypographyWithKeywords.tsx:47-101 | the builder's parts are the highlighter's output; with no keywords, exactly `[text]` |
| HighlightProps.HaltNeedsEmpty | src/components/TypographyWithKeywords.tsx:67-74 | the loop only breaks on a found index when "" is among the keywords |
| HighlightProps.SegmentsRoundTrip | src/components/TypographyWithKeywords.tsx:53-98 | without an empty keyword, the parts concatenate back to the remaining text |
| HighlightProps.SortedSameKeywords | src/components/TypographyWithKeywords.tsx:24-27 | the sorted copy holds exactly the caller's keywords |
| HighlightProps.HighlightRoundTrip | src/components/TypographyWithKeywords.tsx:47-101 | with no empty keyword, the rendered parts concatenate back to the text |
| HighlightProps.SegmentsPlainsNonEmpty | src/components/TypographyWithKeywords.tsx:53-97 | the loop never pushes an empty plain part |
| HighlightProps.HighlightPlainsNonEmpty | src/components/TypographyWithKeywords.tsx:47-97 | with keywords, no plain part is empty and an empty text gives no parts; without keywords the output is `[text]` |
| HighlightProps.TagOfKnown | src/components/TypographyWithKeywords.tsx:87 | a listed keyword gets a tag in range whose keyword equals it ignoring case |
| HighlightProps.PiecesTagged | src/components/TypographyWithKeywords.tsx:76-89 | the highlighted span of a match equals its tagged keyword ignoring case |
| HighlightProps.SegmentsMarksTagged | src/components/TypographyWithKeywords.tsx:53-97 | every highlighted span the loop emits equals, ignoring case, the caller's keyword its tag points at |
| HighlightProps.HighlightMarksTagged | src/components/TypographyWithKeywords.tsx:76-89 | every highlighted span is original-case text equal, ignoring case, to the keyword at its tag |
| HighlightProps.NoEarlierKeyword | src/components/TypographyWithKeywords.tsx:54-65 | no keyword occurs before the chosen index, nor anywhere when there is no match |
| HighlightProps.SegmentsLeftmost | src/components/TypographyWithKeywords.tsx:53-97 | every plain part the loop emits covers a stretch where no keyword starts |
| HighlightProps.HighlightLeftmost | src/components/TypographyWithKeywords.tsx:54-65 | no caller keyword starts, ignoring case, at any position rendered as plain text |
| HighlightProps.FindAtInsert | src/components/TypographyWithKeywords.tsx:24-27 | `find` over the list with one keyword inserted prefers a strictly longer earlier hit, and otherwise the inserted keyword when it hits |
| HighlightProps.ChosenKeyword | src/components/TypographyWithKeywords.tsx:67-72 | over the stable longest-first sort, `find` picks a hitting keyword of maximal length, the first-listed of those, and nothing only when none hits |
| HighlightProps.TurnLeftmostLongest | src/components/TypographyWithKeywords.tsx:54-72 | a turn highlights a caller keyword at the leftmost index; none at that index is longer, and each listed before it that occurs there is shorter |
| HighlightProps.EmptyKeywordHalts | src/components/TypographyWithKeywords.tsx:67-74 | with "" among the keywords and no other keyword at index 0, the loop breaks |
| HighlightProps.EmptyKeywordDropsText | src/components/TypographyWithKeywords.tsx:67-74 | with the keyword list `[""]`, the text "abc" renders to no parts, so the round trip fails |
| HighlightProps.CorrectedRoundTrip | src/components/TypographyWithKeywords.tsx:53-98 | leaving "" out of the search, the parts spell out the text for every keyword list |
| HighlightProps.CorrectedAgrees | src/components/TypographyWithKeywords.tsx:53-98 | without an empty keyword, the corrected highlighter gives the same parts |
| FileUploader.Rejected | src/components/FileUploader.tsx:60-69 | every record added for a rejected file is failed, at progress 0, with a non-empty message |
| FileUploader.Intake | src/components/FileUploader.tsx:55-72 | a batch adds at most one record per file, each carrying a file of the batch and one of its drawn ids |
| FileUploader.Accepted | src/components/FileUploader.tsx:55-59 | at most one entry per file, and every file handed to `onUpload` is in the batch and valid |
| FileUploader.OutcomeSplit | src/components/FileUploader.tsx:56-71 | one file adds at most one record: uploading exactly when valid, failed exactly when invalid with a message |
| FileUploader.IntakeSplits | src/components/FileUploader.tsx:55-72 | in list order, the uploading records are exactly the accepted files and the failed ones exactly the rejected-with-message files; nothing else is added |
| FileUploader.AcceptedAppend | src/components/FileUploader.tsx:55-59 | files reach `onUpload` in list order, each judged once |
| FileUploader.AcceptedMembers | src/components/FileUploader.tsx:55-59 | exactly the valid files of the batch reach `onUpload` |
| FileUploader.Uploader.constructor | src/components/FileUploader.tsx:33-38 | omitted props default to 5 MB and no formats |
| FileUploader.Uploader.HandleFiles | src/components/FileUploader.tsx:52-78 | a null list changes nothing and uploads nothing; otherwise the uploaded files are the accepted ones and the list gains the batch's records, existing records untouched |
| FileUploader.Hint | src/components/FileUploader.tsx:142-148 | the hint contains every allowed format |
| FileUploader.HintMissesNoFormat | src/components/FileUploader.tsx:142-148 | the hint contains every format, so the missing-keyword check reports none |
| FileUploader.HintRendersWhole | src/components/FileUploader.tsx:142-148 | with non-empty formats, the hint's parts spell out the hint |
| HighlightExamples.HighlightTwo | src/components/TypographyWithKeywords.tsx:24-27 | two keywords, the shorter first, are searched longest first |
| HighlightExamples.TwoKeywordLine | src/components/TypographyWithKeywords.tsx:53-97 | a line `p1 k1 p2 k2 p3` renders as plain, mark 0, plain, mark 1, plain, given: lower-case keywords, `k1` non-empty and strictly shorter than `k2`, with different first letters; non-empty plain pieces, `p2` and `p3` in lower case; no character of `p1` lowering to either first letter; neither first letter in `p2` or `p3`, and `k1`'s not in `k2` |
| HighlightExamples.OneKeywordLine | src/components/TypographyWithKeywords.tsx:76-97 | a non-empty plain start followed by one non-empty lower-case keyword written in any case renders as the plain start, then the span in the text's own case, tagged 0, provided no character of the plain start lowers to the keyword's first letter |
| HighlightExamples.KeepsOriginalCase | src/components/TypographyWithKeywords.tsx:78-82 | "Hello World" for "world" renders as "Hello " and the span "World", tag 0 |
| HighlightExamples.PrefixKeyword | src/components/TypographyWithKeywords.tsx:24-27 | when a keyword is the start of a longer one and the text is the longer one, the whole text is one span tagged with the longer keyword |
| HighlightExamples.LongestWins | src/components/TypographyWithKeywords.tsx:67-72 | "filename" for "file" and "filename" is one span, tag 1, not "file" then "name" |
| FileUploader.DragTextParts | src/components/FileUploader.tsx:127-133 | the drop-zone title renders as "Drag & drop a ", file (tag 0), " or ", browse (tag 1), " to upload" |
| UploadItem.FileNameLabel | src/components/UploadItem.tsx:80-82 | at most 18 characters; a name of up to 15 is shown unchanged, a longer one as its first 15 characters ending in "..." |
| UploadItem.ShortNamesDistinct | src/components/UploadItem.tsx:80-82 | different names shown in full get different labels |
| UploadItem.LongNamesCollide | src/components/UploadItem.tsx:80-82 | long names sharing their first 15 characters get the same label |
| UploadItem.LabelKeepsPrefix | src/components/UploadItem.tsx:80-82 | the label starts with as much of the name as is shown |
| UploadItem.FailureLabel | src/components/UploadItem.tsx:120-122 | the label starts with "Failed", and is exactly "Failed" when the reason is null or empty |
| UploadItem.FailureLabelRoundTrip | src/components/UploadItem.tsx:120-122 | a truthy reason can be read back in full from the label; a falsy one leaves none |
| UploadItem.FailureLabelInjective | src/components/UploadItem.tsx:120-122 | different truthy reasons give different labels |
| UploadItem.ActionsMatchStatuses | src/components/UploadItem.tsx:34-64 | statuses, actions and icons correspond one to one |
| UploadItem.ActionOf | src/components/UploadItem.tsx:47-64 | the action offered tells the status back: delete for completed, cancel for uploading, retry for failed |
| UploadItem.StatusLabel | src/components/UploadItem.tsx:67-77 | the badge starts with "Failed" exactly for a failed record |
| UploadItem.AfterClick | src/components/UploadItem.tsx:22-64 | a delete or cancel only drops records; whatever a click adds carries the row's id or the retry's new id |
| UploadItem.DeleteOutcome | src/components/UploadItem.tsx:22-31 | a completed row's delete removes exactly its id's records when the request succeeds, and nothing otherwise |
| UploadItem.CancelThenLateEvents | src/components/UploadItem.tsx:53-57 | cancelling an upload only removes it, and its later callbacks change nothing |
| UploadItem.RetryOutcome | src/components/UploadItem.tsx:59-62 | a failed row's click retries it: a valid file ends as one new uploading record at the tail |
| UploadItem.HandleDelete | src/components/UploadItem.tsx:22-31 | the record goes only when the delete request succeeds |
| UploadItem.Click | src/components/UploadItem.tsx:47-64 | a row's click changes the list as its status's action prescribes |
| UploadItem.SizeFlagged | src/components/UploadItem.tsx:99 | the exact `Too Large` message flags the size; a record with no error is never flagged |
| UploadItem.SizeFlagFollowsValidation | src/components/UploadItem.tsx:99 | a file rejected for size is flagged, one rejected for format is not |
| UploadItem.ShowsProgressBar | src/components/UploadItem.tsx:109 | a freshly started upload, and any upload below 100, shows the bar |
| UploadItem.ProgressBarAfterEvent | src/components/UploadItem.tsx:109 | after a progress callback the bar shows exactly when it did not report 100; a hidden bar means completed |

## Left out

- The upload and delete HTTP requests, the axios interceptor and react-query are not modelled. Only their callbacks are: progress, error, and the delete outcome as a flag.
- Toast notifications, `console.warn` and `console.error` are not modelled. The missing-keyword check is modelled as the list it would print.
- Ids from `Date.now()` are parameters. Freshness is a hypothesis of the lemmas that need it, because the clock is outside the model.
- Asynchronous interleaving is not modelled as concurrency. Callbacks are events applied one at a time in any order, and an upload is never aborted, because the source has no abort.
- Rendering is not modelled: JSX, CSS classes, icons (kept only as an `Icon` value), the drag-over state, the input reset after a batch, the `animate` class and the width style of the progress bar.
- `getFileSize` is not modelled, because it formats floating point with `toFixed(2)`. `maxSize` is an exact real, whereas the slider's value is a JavaScript float.
- `toLowerCase` is modelled on ASCII letters only. Unicode case mapping is outside the model.
- UploadItem.FileNameLabel and the highlighter (Highlighter.Segments, Highlighter.Turn, Text.IndexOf): strings are sequences of Unicode scalar values, while JavaScript's `length`, `slice`, `substring` and `indexOf` count UTF-16 code units. For characters outside the Basic Multilingual Plane, lengths, cut points and indices differ: a name of eight emoji and `.png` has 12 characters here and is kept whole, while JavaScript counts 20 and cuts it inside a surrogate pair.
- `renderTag` is not modelled. The model always computes the tag it would receive, and a highlighted part carries that tag instead of a rendered node.
- `handleRetry`'s `fileToRetry.file` test is not modelled. A record always holds a file, because the record type makes it required.
- Typography, FormatToggle and App are not modelled; they are presentation only.
- The React key strategy of the rendered parts is not modelled.

## Findings

| source | as written | input that shows it | evidently intended | confidence | as-written member | corrected member |
|---|---|---|---|---|---|---|
| src/components/TypographyWithKeywords.tsx:67-74 | with `""` among the keywords the reduce always picks index 0; at the first turn where no non-empty keyword starts there, `find` returns the falsy `""` and `if (!matchedKeyword) break;` leaves the loop, so everything left, including any text before the next keyword, is never pushed | text "abc", keywords `[""]`: no parts at all | an empty keyword is skipped, so the parts still spell out the text | not executed | HighlightProps.EmptyKeywordDropsText | HighlightProps.CorrectedRoundTrip |
