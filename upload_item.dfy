/**
 * One row of the upload list: the file name as shown, the status label and
 * icon, the one action the row offers, the size flag and the progress bar.
 * All of it is read off the record; the action's click is the only thing
 * that touches the list.
 */
module UploadItem {
  import opened Wrappers
  import opened Text
  import opened UploadTypes
  import opened UploadStore
  import opened Home

  // ---- getFileName ----

  /** The longest name shown in full. */
  const NameLimit: nat := 15

  /** `getFileName`: names over 15 characters are cut to 15 and get an ellipsis. */
  function FileNameLabel(name: string): (r: string)
    ensures |r| <= NameLimit + 3
    ensures |name| <= NameLimit ==> r == name
    ensures |name| > NameLimit ==> |r| == NameLimit + 3 && r[..NameLimit] == name[..NameLimit] && EndsWith(r, "...")
  {
    if |name| > NameLimit then name[..NameLimit] + "..." else name
  }

  /** Names shown in full are told apart by their labels. */
  lemma ShortNamesDistinct(a: string, b: string)
    requires |a| <= NameLimit && |b| <= NameLimit && a != b
    ensures FileNameLabel(a) != FileNameLabel(b)
  {
  }

  /** Long names that share their first 15 characters get the same label: the cut loses the rest. */
  lemma LongNamesCollide(a: string, b: string)
    requires |a| > NameLimit && |b| > NameLimit && a[..NameLimit] == b[..NameLimit]
    ensures FileNameLabel(a) == FileNameLabel(b)
  {
  }

  /** The label starts with the name, or with as much of it as is shown. */
  lemma LabelKeepsPrefix(name: string)
    ensures var n := if |name| < NameLimit then |name| else NameLimit;
      FileNameLabel(name)[..n] == name[..n]
  {
  }

  // ---- FailedStatus.getReason ----

  const FailedText: string := "Failed"
  const ReasonSeparator: string := " — "

  /** `reason ? ...`: null and the empty string are falsy. */
  predicate Truthy(reason: Option<string>) {
    reason.Some? && reason.value != ""
  }

  /** `getReason`: the bare word for a falsy reason, the word and the reason otherwise. */
  function FailureLabel(reason: Option<string>): (r: string)
    ensures |r| >= |FailedText| && r[..|FailedText|] == FailedText
    ensures r == FailedText <==> !Truthy(reason)
  {
    if Truthy(reason) then FailedText + ReasonSeparator + reason.value else FailedText
  }

  /** Reads the reason back off a failure label. */
  function ReasonOf(shown: string): Option<string> {
    var prefix := FailedText + ReasonSeparator;
    if |shown| > |prefix| && shown[..|prefix|] == prefix then Some(shown[|prefix|..]) else None
  }

  /** The label shows the reason exactly when it is truthy, and in full. */
  lemma FailureLabelRoundTrip(reason: Option<string>)
    ensures ReasonOf(FailureLabel(reason)) == if Truthy(reason) then reason else None
  {
    var prefix := FailedText + ReasonSeparator;
    if Truthy(reason) {
      var r := FailureLabel(reason);
      assert r == prefix + reason.value;
      assert r[..|prefix|] == prefix && r[|prefix|..] == reason.value;
    }
  }

  /** Two different truthy reasons give two different labels. */
  lemma FailureLabelInjective(a: Option<string>, b: Option<string>)
    requires Truthy(a) && Truthy(b) && a != b
    ensures FailureLabel(a) != FailureLabel(b)
  {
    FailureLabelRoundTrip(a);
    FailureLabelRoundTrip(b);
  }

  // ---- getIcon, getStatus, getAction ----

  /** The status icons, by their `alt` text. */
  datatype Icon = UploadingIcon | SuccessIcon | FailedIcon

  function IconOf(status: Status): Icon {
    match status
    case Uploading => UploadingIcon
    case Completed => SuccessIcon
    case Failed => FailedIcon
  }

  /** `getStatus`: the text of the status badge; only a failure's starts with "Failed". */
  function StatusLabel(record: Record): (shown: string)
    ensures record.status == Failed <==> |shown| >= |FailedText| && shown[..|FailedText|] == FailedText
  {
    match record.status
    case Uploading =>
      assert "Uploading"[..|FailedText|][0] != FailedText[0];
      "Uploading"
    case Completed =>
      assert "Completed"[..|FailedText|][0] != FailedText[0];
      "Completed"
    case Failed => FailureLabel(record.error)
  }

  /** The one action a row offers: `handleDelete`, `removeFile` or `handleRetry`. */
  datatype Action = DeleteFile | CancelUpload | RetryUpload

  /** `getAction`. */
  function ActionOf(status: Status): (a: Action)
    ensures StatusFor(a) == status
  {
    match status
    case Completed => DeleteFile
    case Uploading => CancelUpload
    case Failed => RetryUpload
  }

  /** The status a row with a given action has. */
  function StatusFor(action: Action): Status {
    match action
    case DeleteFile => Completed
    case CancelUpload => Uploading
    case RetryUpload => Failed
  }

  /** Statuses and actions correspond one to one, and so do statuses and icons. */
  lemma ActionsMatchStatuses(s: Status, a: Action)
    ensures StatusFor(ActionOf(s)) == s && ActionOf(StatusFor(a)) == a
    ensures ActionOf(s) == a <==> s == StatusFor(a)
    ensures forall t: Status :: IconOf(t) == IconOf(s) ==> t == s
  {
  }

  /**
   * The list after a click on the row's action. `deleted` is whether the
   * delete request succeeds; `newId` is the id a retried upload draws.
   */
  function AfterClick(files: seq<Record>, record: Record, deleted: bool, newId: string, formats: seq<string>, maxSize: real): (r: seq<Record>)
    ensures record.status != Failed ==> forall x :: x in r ==> x in files
    ensures forall x :: x in r && x !in files ==> x.id == record.id || x.id == newId
  {
    match ActionOf(record.status)
    case DeleteFile => if deleted then Removed(files, record.id) else files
    case CancelUpload => Removed(files, record.id)
    case RetryUpload => Retry(files, record.id, newId, formats, maxSize)
  }

  /** No record of a removed id is left. */
  lemma RemovedLeavesNoId(files: seq<Record>, id: string)
    ensures id !in Ids(Removed(files, id))
  {
    var r := Removed(files, id);
    forall i | 0 <= i < |r| ensures Ids(r)[i] != id {
      assert r[i] in r;
    }
  }

  /** A completed row's delete removes its record when the request succeeds, and nothing otherwise. */
  lemma DeleteOutcome(files: seq<Record>, record: Record, deleted: bool, newId: string, formats: seq<string>, maxSize: real)
    requires record.status == Completed
    ensures var r := AfterClick(files, record, deleted, newId, formats, maxSize);
      && (deleted ==> record.id !in Ids(r) && forall x :: x in r <==> x in files && x.id != record.id)
      && (!deleted ==> r == files)
  {
    RemovedLeavesNoId(files, record.id);
  }

  /**
   * Cancelling an uploading row only removes its record, so whatever
   * callbacks of that upload arrive later change nothing.
   */
  lemma CancelThenLateEvents(files: seq<Record>, record: Record, events: seq<Event>, newId: string, formats: seq<string>, maxSize: real)
    requires record.status == Uploading
    requires forall e :: e in events ==> e.id == record.id
    ensures var r := AfterClick(files, record, false, newId, formats, maxSize);
      && r == Removed(files, record.id)
      && ApplyAll(r, events) == r
  {
    RemovedLeavesNoId(files, record.id);
    EventsForAbsentIds(Removed(files, record.id), events);
  }

  /** A failed row's click is a retry of its record. */
  lemma RetryOutcome(files: seq<Record>, record: Record, deleted: bool, newId: string, formats: seq<string>, maxSize: real)
    requires record.status == Failed && record in files
    requires ValidateFile(formats, maxSize, FindRecord(files, record.id).value.file).valid
    ensures AfterClick(files, record, deleted, newId, formats, maxSize)
      == Removed(files, record.id) + [NewUpload(newId, FindRecord(files, record.id).value.file)]
  {
    assert record.id in Ids(files) by {
      var i :| 0 <= i < |files| && files[i] == record;
      assert Ids(files)[i] == record.id;
    }
    RetryValid(files, record.id, newId, formats, maxSize);
  }

  /** `handleDelete`: the record goes only once the delete request succeeds. */
  method HandleDelete(store: Store, id: string, deleted: bool)
    modifies store
    ensures store.files == (if deleted then Removed(old(store.files), id) else old(store.files))
  {
    if deleted {
      store.RemoveFile(id);
    }
  }

  /** A click on the row's action, as the screen carries it out. */
  method Click(page: Page, record: Record, deleted: bool, newId: string)
    modifies page.store
    ensures page.store.files == AfterClick(old(page.store.files), record, deleted, newId, page.allowedFormats, page.maxSize)
  {
    match ActionOf(record.status) {
      case DeleteFile =>
        HandleDelete(page.store, record.id, deleted);
      case CancelUpload =>
        page.store.RemoveFile(record.id);
      case RetryUpload =>
        page.HandleRetry(record.id, newId);
    }
  }

  // ---- the size flag and the progress bar ----

  /** `file.error?.includes('Too Large')`: the size label turns red. */
  predicate SizeFlagged(record: Record): (flagged: bool)
    ensures record.error == Some(TooLarge) ==> flagged
    ensures record.error.None? ==> !flagged
  {
    assert OccursAt(TooLarge, TooLarge, 0);
    record.error.Some? && Contains(record.error.value, TooLarge)
  }

  /** A file rejected for its size is flagged, one rejected for its format is not. */
  lemma SizeFlagFollowsValidation(record: Record, v: Validation)
    requires !v.valid && record.error == v.error
    ensures v.error == Some(TooLarge) ==> SizeFlagged(record)
    ensures v.error == Some(UnsupportedFormat) ==> !SizeFlagged(record)
  {
    if v.error == Some(TooLarge) {
      assert OccursAt(TooLarge, TooLarge, 0);
    } else if v.error == Some(UnsupportedFormat) {
      IndexOfAbsent(UnsupportedFormat, TooLarge);
      IndexOfSpec(UnsupportedFormat, TooLarge);
    }
  }

  /** `file.progress !== 100`. */
  predicate ShowsProgressBar(record: Record): (shown: bool)
    ensures record == NewUpload(record.id, record.file) ==> shown
    ensures record.status == Uploading && record.progress < 100 ==> shown
  {
    record.progress != 100
  }

  /**
   * After a progress callback, the bar of its upload is gone exactly when
   * the callback reported 100, and then the upload shows as completed.
   */
  lemma ProgressBarAfterEvent(files: seq<Record>, id: string, p: int, i: nat)
    requires i < |files| && files[i].id == id
    ensures var r := Apply(files, Progress(id, p));
      && (ShowsProgressBar(r[i]) <==> p != 100)
      && (!ShowsProgressBar(r[i]) ==> r[i].status == Completed && IconOf(r[i].status) == SuccessIcon)
  {
    ProgressEvent(files, id, p);
  }
}
