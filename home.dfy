/**
 * The home screen's upload rules: which files are accepted, what starting
 * an upload puts in the list, how progress and error callbacks update it,
 * what a retry does, and how the format toggles change the accepted
 * formats. Callbacks are modelled as events applied to the list in any
 * order; the timestamp-based ids are handed in by the caller.
 */
module Home {
  import opened Wrappers
  import opened Text
  import opened UploadTypes
  import opened UploadStore
  import opened UploadProgress

  const UnsupportedFormat: string := "Unsupported format"
  const TooLarge: string := "Too Large"
  const BytesPerMB: real := 1048576.0

  /** `{ valid, error? }` as `validateFile` returns it. */
  datatype Validation = Validation(valid: bool, error: Option<string>)

  // ---- isFormatAllowed / validateFile ----

  /** One format accepts a file when it equals the MIME type or ends the name, ignoring case. */
  predicate FormatMatches(file: FileRef, format: string) {
    LowerStr(file.mimeType) == LowerStr(format) || EndsWith(LowerStr(file.name), LowerStr(format))
  }

  /** `allowedFormats.some(...)`. */
  function IsFormatAllowed(formats: seq<string>, file: FileRef): (r: bool)
    ensures r <==> exists f :: f in formats && FormatMatches(file, f)
  {
    if formats == [] then false
    else FormatMatches(file, formats[0]) || IsFormatAllowed(formats[1..], file)
  }

  /** Format first, then size against `maxSize` megabytes. */
  function ValidateFile(formats: seq<string>, maxSize: real, file: FileRef): (v: Validation)
    ensures v.valid <==> v.error.None?
    ensures v.valid ==> IsFormatAllowed(formats, file) && file.size as real <= maxSize * BytesPerMB
  {
    if !IsFormatAllowed(formats, file) then Validation(false, Some(UnsupportedFormat))
    else if file.size as real > maxSize * BytesPerMB then Validation(false, Some(TooLarge))
    else Validation(true, None)
  }

  /** An unsupported file reports the format, however large it is; an empty format list rejects everything. */
  lemma FormatCheckedFirst(formats: seq<string>, maxSize: real, file: FileRef)
    ensures !IsFormatAllowed(formats, file) ==> ValidateFile(formats, maxSize, file) == Validation(false, Some(UnsupportedFormat))
    ensures formats == [] ==> !ValidateFile(formats, maxSize, file).valid
  {
  }

  /**
   * A supported file is valid exactly when its size is at most `maxSize`
   * megabytes; a valid file carries no error, an invalid one always does.
   */
  lemma SizeChecked(formats: seq<string>, maxSize: real, file: FileRef)
    ensures var v := ValidateFile(formats, maxSize, file);
      && (v.valid <==> IsFormatAllowed(formats, file) && file.size as real <= maxSize * BytesPerMB)
      && (IsFormatAllowed(formats, file) && !v.valid ==> v.error == Some(TooLarge))
      && (v.valid <==> v.error.None?)
  {
  }

  /** At the default 10 MB a file of exactly 10 MB passes and one byte more is too large. */
  lemma SizeLimitExample(file: FileRef)
    requires IsFormatAllowed([".JPG", ".PNG"], file)
    ensures file.size == 10485760 ==> ValidateFile([".JPG", ".PNG"], 10.0, file).valid
    ensures file.size == 10485761 ==> ValidateFile([".JPG", ".PNG"], 10.0, file) == Validation(false, Some(TooLarge))
  {
  }

  /** `.JPG` and `.PNG` lower-cased. */
  lemma DefaultFormatsLowered()
    ensures LowerStr(".JPG") == ".jpg" && LowerStr(".PNG") == ".png"
  {
  }

  /** A format whose lower case ends a name without capitals accepts the file. */
  lemma AcceptedBySuffix(formats: seq<string>, file: FileRef, f: string)
    requires f in formats && NoUpper(file.name) && EndsWith(file.name, LowerStr(f))
    ensures IsFormatAllowed(formats, file)
  {
    LowerStrNoUpper(file.name);
    assert FormatMatches(file, f);
  }

  /** At the 10 MB default, a 12 MB file named `photo.jpg` is too large. */
  lemma TooLargeExample(file: FileRef)
    requires file.name == "photo.jpg" && file.size == 12 * 1048576
    ensures ValidateFile([".JPG", ".PNG"], 10.0, file) == Validation(false, Some(TooLarge))
  {
    DefaultFormatsLowered();
    assert EndsWith(file.name, ".jpg") by {
      assert file.name[5..] == ".jpg";
    }
    AcceptedBySuffix([".JPG", ".PNG"], file, ".JPG");
  }

  /**
   * A format whose lower case is neither the MIME type's lower case nor an
   * ending of the name (told by one character) does not accept the file.
   */
  lemma RejectedByChar(file: FileRef, f: string, i: nat)
    requires NoUpper(file.name) && |LowerStr(file.mimeType)| != |f|
    requires |f| <= |file.name| && i < |f| && file.name[|file.name| - |f| + i] != LowerStr(f)[i]
    ensures !FormatMatches(file, f)
  {
    LowerStrNoUpper(file.name);
  }

  /** Under the default formats a file named `cat.gif`, of type `image/gif`, is unsupported whatever its size. */
  lemma UnsupportedExample(file: FileRef)
    requires file.name == "cat.gif" && file.mimeType == "image/gif"
    ensures ValidateFile([".JPG", ".PNG"], 10.0, file) == Validation(false, Some(UnsupportedFormat))
  {
    assert !IsFormatAllowed([".JPG", ".PNG"], file) by {
      DefaultFormatsLowered();
      assert file.name[4] == 'g' && NoUpper(file.name);
      RejectedByChar(file, ".JPG", 1);
      RejectedByChar(file, ".PNG", 1);
      assert forall f :: f in [".JPG", ".PNG"] ==> f == ".JPG" || f == ".PNG";
    }
  }

  // ---- the upload callbacks as events ----

  /** The record `handleUpload` adds for a file. */
  function NewUpload(id: string, file: FileRef): Record {
    Record(id, file, 0, Uploading, None)
  }

  /** A callback of an upload in flight. */
  datatype Event =
    | Progress(id: string, percent: int)      // `onProgress(percent)`
    | UploadError(id: string, message: string) // `onError(error)`

  /** The list after one callback. */
  function Apply(files: seq<Record>, e: Event): (r: seq<Record>)
    ensures |r| == |files|
    ensures forall i :: 0 <= i < |files| ==>
      r[i].id == files[i].id && r[i].file == files[i].file && (files[i].id != e.id ==> r[i] == files[i])
  {
    match e
    case Progress(id, p) =>
      var f := WithProgress(files, id, p);
      if p == 100 then WithStatus(f, id, Completed, None) else f
    case UploadError(id, m) => WithStatus(files, id, Failed, Some(m))
  }

  /** The list after callbacks arriving in the given order. */
  function ApplyAll(files: seq<Record>, events: seq<Event>): (r: seq<Record>)
    ensures |r| == |files|
    ensures forall i :: 0 <= i < |files| ==> r[i].id == files[i].id && r[i].file == files[i].file
    decreases |events|
  {
    if events == [] then files else ApplyAll(Apply(files, events[0]), events[1..])
  }

  /** What a progress callback does to the records of its upload, and that it leaves the others alone. */
  lemma ProgressEvent(files: seq<Record>, id: string, p: int)
    ensures var r := Apply(files, Progress(id, p));
      && |r| == |files|
      && forall i :: 0 <= i < |files| ==>
        && r[i].id == files[i].id && r[i].file == files[i].file
        && (files[i].id != id ==> r[i] == files[i])
        && (files[i].id == id ==> r[i].progress == p)
        && (files[i].id == id && p == 100 ==> r[i].status == Completed && r[i].error == None)
        && (files[i].id == id && p != 100 ==> r[i].status == files[i].status && r[i].error == files[i].error)
  {
  }

  /** An error callback fails the records of its upload with its message. */
  lemma ErrorEvent(files: seq<Record>, id: string, m: string)
    ensures var r := Apply(files, UploadError(id, m));
      && |r| == |files|
      && forall i :: 0 <= i < |files| ==>
        && r[i].id == files[i].id && r[i].file == files[i].file && r[i].progress == files[i].progress
        && (files[i].id != id ==> r[i] == files[i])
        && (files[i].id == id ==> r[i].status == Failed && r[i].error == Some(m))
  {
  }

  /** The ids mentioned by some events. */
  function EventIds(events: seq<Event>): (ids: set<string>)
    ensures forall e :: e in events ==> e.id in ids
  {
    if events == [] then {} else {events[0].id} + EventIds(events[1..])
  }

  /**
   * In any order, callbacks never add, drop, reorder or re-file records,
   * and records of uploads they do not mention stay as they were.
   */
  lemma {:induction false} EventsKeepShape(files: seq<Record>, events: seq<Event>)
    ensures var r := ApplyAll(files, events);
      && |r| == |files|
      && forall i :: 0 <= i < |files| ==>
        && r[i].id == files[i].id && r[i].file == files[i].file
        && (files[i].id !in EventIds(events) ==> r[i] == files[i])
    decreases |events|
  {
    if events != [] {
      var next := Apply(files, events[0]);
      match events[0] {
        case Progress(id, p) => ProgressEvent(files, id, p);
        case UploadError(id, m) => ErrorEvent(files, id, m);
      }
      EventsKeepShape(next, events[1..]);
      assert EventIds(events) == {events[0].id} + EventIds(events[1..]);
      var r := ApplyAll(files, events);
      assert r == ApplyAll(next, events[1..]);
      forall i | 0 <= i < |files| && files[i].id !in EventIds(events) ensures r[i] == files[i] {
        assert next[i] == files[i];
      }
    }
  }

  /** Callbacks keep one record per id. */
  lemma EventsKeepUnique(files: seq<Record>, events: seq<Event>)
    requires UniqueIds(files)
    ensures UniqueIds(ApplyAll(files, events))
  {
    EventsKeepShape(files, events);
  }

  /** Callbacks for uploads no longer in the list (cancelled or retried) change nothing. */
  lemma EventsForAbsentIds(files: seq<Record>, events: seq<Event>)
    requires forall e :: e in events ==> e.id !in Ids(files)
    ensures ApplyAll(files, events) == files
  {
    EventsKeepShape(files, events);
    var r := ApplyAll(files, events);
    forall i | 0 <= i < |files| ensures r[i] == files[i] {
      assert Ids(files)[i] == files[i].id;
      if files[i].id in EventIds(events) {
        EventIdsWitness(events, files[i].id);
      }
    }
  }

  lemma {:induction false} EventIdsWitness(events: seq<Event>, id: string)
    requires id in EventIds(events)
    ensures exists e :: e in events && e.id == id
  {
    if events[0].id != id {
      EventIdsWitness(events[1..], id);
      var e :| e in events[1..] && e.id == id;
      assert e in events;
    }
  }

  /** An error arriving after the 100% report still fails the upload: the last callback wins. */
  lemma LateErrorOverridesCompletion(files: seq<Record>, id: string, m: string)
    ensures var r := ApplyAll(files, [Progress(id, 100), UploadError(id, m)]);
      forall i :: 0 <= i < |r| && r[i].id == id ==> r[i].status == Failed && r[i].error == Some(m) && r[i].progress == 100
  {
    var mid := Apply(files, Progress(id, 100));
    ProgressEvent(files, id, 100);
    ErrorEvent(mid, id, m);
    var events := [Progress(id, 100), UploadError(id, m)];
    assert events[1..] == [UploadError(id, m)] && events[1..][1..] == [];
    assert ApplyAll(files, events) == ApplyAll(mid, [UploadError(id, m)]);
    assert ApplyAll(mid, [UploadError(id, m)]) == ApplyAll(Apply(mid, UploadError(id, m)), []);
  }

  // ---- handleRetry ----

  /** `files.find(f => f.id === id)`. */
  function FindRecord(files: seq<Record>, id: string): (r: Option<Record>)
    ensures r.None? <==> id !in Ids(files)
    ensures r.Some? ==> r.value in files && r.value.id == id
  {
    if files == [] then None
    else if files[0].id == id then Some(files[0])
    else
      assert Ids(files) == [files[0].id] + Ids(files[1..]);
      FindRecord(files[1..], id)
  }

  /** `find` returns the first record with the id. */
  lemma {:induction false} FindRecordFirst(files: seq<Record>, id: string, i: nat)
    requires i < |files| && files[i].id == id
    requires forall j :: 0 <= j < i ==> files[j].id != id
    ensures FindRecord(files, id) == Some(files[i])
  {
    if i > 0 {
      FindRecordFirst(files[1..], id, i - 1);
    }
  }

  /** `validation.error || null`. */
  function ErrorOrNull(error: Option<string>): Option<string> {
    if error.Some? && error.value != "" then error else None
  }

  /** The list after `handleRetry(fileId)`, with `newId` the id `handleUpload` would draw. */
  function Retry(files: seq<Record>, fileId: string, newId: string, formats: seq<string>, maxSize: real): (r: seq<Record>)
    ensures FindRecord(files, fileId).None? ==> r == files
    ensures forall x :: x in r ==> x in files || x.id == fileId || x.id == newId
  {
    match FindRecord(files, fileId)
    case None => files
    case Some(rec) =>
      var v := ValidateFile(formats, maxSize, rec.file);
      if v.valid then WithStatus(Removed(files, fileId), fileId, Uploading, None) + [NewUpload(newId, rec.file)]
      else WithStatus(files, fileId, Failed, ErrorOrNull(v.error))
  }

  /** Retrying an id that is not in the list does nothing. */
  lemma RetryAbsent(files: seq<Record>, fileId: string, newId: string, formats: seq<string>, maxSize: real)
    requires fileId !in Ids(files)
    ensures Retry(files, fileId, newId, formats, maxSize) == files
  {
  }

  /**
   * A retried file that now validates leaves the list without the old
   * record and with a new uploading one at the tail; the status update on
   * the removed id in between changes nothing.
   */
  lemma RetryValid(files: seq<Record>, fileId: string, newId: string, formats: seq<string>, maxSize: real)
    requires fileId in Ids(files)
    requires ValidateFile(formats, maxSize, FindRecord(files, fileId).value.file).valid
    ensures Retry(files, fileId, newId, formats, maxSize)
      == Removed(files, fileId) + [NewUpload(newId, FindRecord(files, fileId).value.file)]
  {
    var rest := Removed(files, fileId);
    forall i | 0 <= i < |rest| ensures Ids(rest)[i] != fileId {
      assert rest[i] in rest;
    }
    StatusAbsent(rest, fileId, Uploading, None);
  }

  /** A retried file that still fails validation stays in place, failed with the validation message. */
  lemma RetryInvalid(files: seq<Record>, fileId: string, newId: string, formats: seq<string>, maxSize: real)
    requires fileId in Ids(files)
    requires !ValidateFile(formats, maxSize, FindRecord(files, fileId).value.file).valid
    ensures var r := Retry(files, fileId, newId, formats, maxSize);
      var v := ValidateFile(formats, maxSize, FindRecord(files, fileId).value.file);
      && Ids(r) == Ids(files)
      && forall i :: 0 <= i < |files| ==>
        && (files[i].id != fileId ==> r[i] == files[i])
        && (files[i].id == fileId ==> r[i] == files[i].(status := Failed, error := v.error))
  {
    var v := ValidateFile(formats, maxSize, FindRecord(files, fileId).value.file);
    assert ErrorOrNull(v.error) == v.error;
    StatusChangesOnlyStatus(files, fileId, Failed, v.error);
  }

  /** With a fresh id, a retry keeps one record per id. */
  lemma RetryKeepsUnique(files: seq<Record>, fileId: string, newId: string, formats: seq<string>, maxSize: real)
    requires UniqueIds(files) && newId !in Ids(files)
    ensures UniqueIds(Retry(files, fileId, newId, formats, maxSize))
  {
    var r := Retry(files, fileId, newId, formats, maxSize);
    match FindRecord(files, fileId)
    case None =>
    case Some(rec) =>
      var v := ValidateFile(formats, maxSize, rec.file);
      if v.valid {
        RetryValid(files, fileId, newId, formats, maxSize);
        var rest := Removed(files, fileId);
        RemoveKeepsUnique(files, fileId);
        assert newId !in Ids(rest) by {
          forall i | 0 <= i < |rest| ensures rest[i].id != newId {
            assert rest[i] in files;
            var j :| 0 <= j < |files| && files[j] == rest[i];
            assert Ids(files)[j] == files[j].id;
          }
        }
        AddKeepsUniqueIffFresh(rest, NewUpload(newId, rec.file));
      } else {
        StatusChangesOnlyStatus(files, fileId, Failed, ErrorOrNull(v.error));
      }
  }

  // ---- format toggles ----

  /** `prev.filter(f => f !== format)`. */
  function Without(formats: seq<string>, format: string): (r: seq<string>)
    ensures forall f :: f in r <==> f in formats && f != format
  {
    if formats == [] then []
    else if formats[0] == format then Without(formats[1..], format)
    else [formats[0]] + Without(formats[1..], format)
  }

  /** A toggle switched on appends its format, switched off removes it. */
  function Toggled(formats: seq<string>, format: string, active: bool): seq<string> {
    if active then formats + [format] else Without(formats, format)
  }

  /** Switching off keeps the other formats in their order: the filter distributes over concatenation. */
  lemma {:induction false} WithoutAppend(a: seq<string>, b: seq<string>, format: string)
    ensures Without(a + b, format) == Without(a, format) + Without(b, format)
  {
    if a == [] {
      assert a + b == b;
    } else {
      assert (a + b)[1..] == a[1..] + b;
      WithoutAppend(a[1..], b, format);
    }
  }

  /** Switching off a format that is not there changes nothing. */
  lemma {:induction false} WithoutAbsent(formats: seq<string>, format: string)
    requires format !in formats
    ensures Without(formats, format) == formats
  {
    if formats != [] {
      assert formats == [formats[0]] + formats[1..];
      WithoutAbsent(formats[1..], format);
    }
  }

  /** On then off restores a list that did not hold the format; the toggle shows on exactly when the format is listed. */
  lemma ToggleOnThenOff(formats: seq<string>, format: string)
    requires format !in formats
    ensures format in Toggled(formats, format, true)
    ensures Toggled(Toggled(formats, format, true), format, false) == formats
  {
    WithoutAppend(formats, [format], format);
    WithoutAbsent(formats, format);
    assert Without([format], format) == [];
  }

  // ---- isInProgress ----

  /** `files.some(file => file.status === 'uploading')`. */
  function AnyUploading(files: seq<Record>): (r: bool)
    ensures r <==> exists i :: 0 <= i < |files| && files[i].status == Uploading
  {
    if files == [] then false
    else if files[0].status == Uploading then true
    else
      var r := AnyUploading(files[1..]);
      assert forall i :: 1 <= i < |files| ==> files[i] == files[1..][i - 1];
      r
  }

  /** The screen: the shared upload list and the two configuration values. */
  class Page {
    const store: Store
    var allowedFormats: seq<string>
    var maxSize: real

    constructor (store: Store)
      ensures this.store == store && allowedFormats == [".JPG", ".PNG"] && maxSize == 10.0
    {
      this.store := store;
      allowedFormats := [".JPG", ".PNG"];
      maxSize := 10.0;
    }

    function Validate(file: FileRef): Validation
      reads this
    {
      ValidateFile(allowedFormats, maxSize, file)
    }

    function IsInProgress(): bool
      reads this, store
    {
      AnyUploading(store.files)
    }

    /** `handleUpload`: the new record goes to the tail; the request itself is not modelled. */
    method HandleUpload(file: FileRef, id: string)
      modifies store
      ensures store.files == old(store.files) + [NewUpload(id, file)]
    {
      store.AddFile(NewUpload(id, file));
    }

    /** The `onProgress` callback. */
    method OnProgress(id: string, percent: int)
      modifies store
      ensures store.files == Apply(old(store.files), Progress(id, percent))
    {
      store.UpdateFileProgress(id, percent);
      if percent == 100 {
        store.UpdateFileStatus(id, Completed, None);
      }
    }

    /** The `onError` callback. */
    method OnError(id: string, message: string)
      modifies store
      ensures store.files == Apply(old(store.files), UploadError(id, message))
    {
      store.UpdateFileStatus(id, Failed, Some(message));
    }

    /** One progress event of the request: exactly one `onProgress` call with the rounded percent. */
    method OnUploadProgress(id: string, loaded: nat, total: Option<nat>)
      modifies store
      ensures store.files == Apply(old(store.files), Progress(id, Percent(loaded, total)))
    {
      OnProgress(id, Percent(loaded, total));
    }

    /** `handleRetry`; `newId` is the id the new upload draws. */
    method HandleRetry(fileId: string, newId: string)
      modifies store
      ensures store.files == Retry(old(store.files), fileId, newId, allowedFormats, maxSize)
    {
      var found := FindRecord(store.files, fileId);
      if found.Some? {
        var validation := Validate(found.value.file);
        if validation.valid {
          store.RemoveFile(fileId);
          store.UpdateFileStatus(fileId, Uploading, None);
          HandleUpload(found.value.file, newId);
        } else {
          store.UpdateFileStatus(fileId, Failed, ErrorOrNull(validation.error));
        }
      }
    }

    /** A format toggle's `onChange(active)`. */
    method ToggleFormat(format: string, active: bool)
      modifies this
      ensures allowedFormats == Toggled(old(allowedFormats), format, active)
      ensures maxSize == old(maxSize)
    {
      if active {
        allowedFormats := allowedFormats + [format];
      } else {
        allowedFormats := Without(allowedFormats, format);
      }
    }

    /** The size slider. */
    method SetMaxSize(value: real)
      modifies this
      ensures maxSize == value && allowedFormats == old(allowedFormats)
    {
      maxSize := value;
    }
  }

  /** Starting an upload puts the screen in progress. */
  lemma UploadStartsProgress(files: seq<Record>, id: string, file: FileRef)
    ensures AnyUploading(files + [NewUpload(id, file)])
  {
    assert (files + [NewUpload(id, file)])[|files|].status == Uploading;
  }
}
