/**
 * The file picker and drop zone: `handleFiles` takes a picked or dropped
 * batch in order, starts an upload for each valid file and records each
 * invalid file that comes with a message as failed. Also the defaults of
 * its props and the two texts it highlights.
 */
module FileUploader {
  import opened Wrappers
  import opened Text
  import opened UploadTypes
  import opened UploadStore
  import opened Home
  import opened Highlighter
  import opened HighlightProps
  import opened HighlightExamples

  const DefaultMaxSize: real := 5.0
  const DefaultAllowedFormats: seq<string> := []

  /** `else if (validation.error)`: a message that is present and not empty. */
  predicate HasMessage(v: Validation) {
    v.error.Some? && v.error.value != ""
  }

  /** The record `handleFiles` adds itself for a file rejected with a message. */
  function FailedUpload(id: string, file: FileRef, message: string): Record {
    Record(id, file, 0, Failed, Some(message))
  }

  /** What one file adds to the list: the upload's record, the failed record, or nothing. */
  function Outcome(formats: seq<string>, maxSize: real, file: FileRef, id: string): seq<Record> {
    var v := ValidateFile(formats, maxSize, file);
    if v.valid then [NewUpload(id, file)]
    else if HasMessage(v) then [FailedUpload(id, file, v.error.value)]
    else []
  }

  /** The records a batch adds, file by file in list order, each with its id. */
  function Intake(formats: seq<string>, maxSize: real, files: seq<FileRef>, ids: seq<string>): (r: seq<Record>)
    requires |files| == |ids|
    ensures |r| <= |files|
    ensures forall i :: 0 <= i < |r| ==> r[i].file in files && r[i].id in ids
  {
    if files == [] then []
    else
      var n := |files| - 1;
      Intake(formats, maxSize, files[..n], ids[..n]) + Outcome(formats, maxSize, files[n], ids[n])
  }

  /** One more file of the batch: what it adds and whether it is uploaded. */
  lemma BatchStep(formats: seq<string>, maxSize: real, files: seq<FileRef>, ids: seq<string>, i: nat)
    requires |files| == |ids| && i < |files|
    ensures Intake(formats, maxSize, files[..i + 1], ids[..i + 1])
      == Intake(formats, maxSize, files[..i], ids[..i]) + Outcome(formats, maxSize, files[i], ids[i])
    ensures Accepted(formats, maxSize, files[..i + 1])
      == Accepted(formats, maxSize, files[..i]) + (if ValidateFile(formats, maxSize, files[i]).valid then [files[i]] else [])
  {
    assert files[..i + 1][..i] == files[..i] && ids[..i + 1][..i] == ids[..i];
  }

  /** Regroups the list after one more file; stated apart to keep the loop's proof small. */
  lemma AppendRegroup(start: seq<Record>, done: seq<Record>, added: seq<Record>)
    ensures start + done + added == start + (done + added)
  {
  }

  /** The files of a batch handed to `onUpload`, in list order. */
  function Accepted(formats: seq<string>, maxSize: real, files: seq<FileRef>): (r: seq<FileRef>)
    ensures |r| <= |files|
    ensures forall f :: f in r ==> f in files && ValidateFile(formats, maxSize, f).valid
  {
    if files == [] then []
    else
      var n := |files| - 1;
      Accepted(formats, maxSize, files[..n]) + (if ValidateFile(formats, maxSize, files[n]).valid then [files[n]] else [])
  }

  /** The failed records of a batch: one per file rejected with a message, in list order. */
  function Rejected(formats: seq<string>, maxSize: real, files: seq<FileRef>, ids: seq<string>): (r: seq<Record>)
    requires |files| == |ids|
    ensures forall x :: x in r ==> x.status == Failed && x.progress == 0 && x.error.Some? && x.error.value != ""
  {
    if files == [] then []
    else
      var n := |files| - 1;
      var v := ValidateFile(formats, maxSize, files[n]);
      Rejected(formats, maxSize, files[..n], ids[..n])
        + (if !v.valid && HasMessage(v) then [FailedUpload(ids[n], files[n], v.error.value)] else [])
  }

  /** The records of a list with a given status, in order. */
  function WithStatusOnly(records: seq<Record>, status: Status): (r: seq<Record>)
    ensures forall x :: x in r <==> x in records && x.status == status
  {
    if records == [] then []
    else
      var rest := WithStatusOnly(records[1..], status);
      assert forall x :: x in records <==> x == records[0] || x in records[1..];
      if records[0].status == status then [records[0]] + rest else rest
  }

  lemma {:induction false} WithStatusOnlyAppend(a: seq<Record>, b: seq<Record>, status: Status)
    ensures WithStatusOnly(a + b, status) == WithStatusOnly(a, status) + WithStatusOnly(b, status)
  {
    if a == [] {
      assert a + b == b;
    } else {
      assert (a + b)[0] == a[0] && (a + b)[1..] == a[1..] + b;
      WithStatusOnlyAppend(a[1..], b, status);
    }
  }

  /** The files of some records, in order. */
  function FilesOf(records: seq<Record>): (r: seq<FileRef>)
    ensures |r| == |records|
    ensures forall i :: 0 <= i < |records| ==> r[i] == records[i].file
  {
    if records == [] then [] else [records[0].file] + FilesOf(records[1..])
  }

  lemma FilesOfAppend(a: seq<Record>, b: seq<Record>)
    ensures FilesOf(a + b) == FilesOf(a) + FilesOf(b)
  {
  }

  /** What one file adds, split by status. */
  lemma OutcomeSplit(formats: seq<string>, maxSize: real, file: FileRef, id: string)
    ensures var r := Outcome(formats, maxSize, file, id); var v := ValidateFile(formats, maxSize, file);
      && FilesOf(WithStatusOnly(r, Uploading)) == (if v.valid then [file] else [])
      && WithStatusOnly(r, Failed) == (if !v.valid && HasMessage(v) then [FailedUpload(id, file, v.error.value)] else [])
      && WithStatusOnly(r, Completed) == []
      && |r| <= 1
  {
  }

  /**
   * A batch adds, in list order, an uploading record for exactly the files
   * passed to `onUpload` and a failed record for exactly the files rejected
   * with a message; a file rejected without a message adds nothing.
   */
  lemma {:induction false} IntakeSplits(formats: seq<string>, maxSize: real, files: seq<FileRef>, ids: seq<string>)
    requires |files| == |ids|
    ensures var r := Intake(formats, maxSize, files, ids);
      && FilesOf(WithStatusOnly(r, Uploading)) == Accepted(formats, maxSize, files)
      && WithStatusOnly(r, Failed) == Rejected(formats, maxSize, files, ids)
      && WithStatusOnly(r, Completed) == []
      && |r| <= |files|
  {
    if files != [] {
      var n := |files| - 1;
      var init := Intake(formats, maxSize, files[..n], ids[..n]);
      var last := Outcome(formats, maxSize, files[n], ids[n]);
      IntakeSplits(formats, maxSize, files[..n], ids[..n]);
      OutcomeSplit(formats, maxSize, files[n], ids[n]);
      WithStatusOnlyAppend(init, last, Uploading);
      WithStatusOnlyAppend(init, last, Failed);
      WithStatusOnlyAppend(init, last, Completed);
      FilesOfAppend(WithStatusOnly(init, Uploading), WithStatusOnly(last, Uploading));
    }
  }

  /** Handing files to `onUpload` distributes over splitting the batch: each file is judged once, in place. */
  lemma {:induction false} AcceptedAppend(formats: seq<string>, maxSize: real, a: seq<FileRef>, b: seq<FileRef>)
    ensures Accepted(formats, maxSize, a + b) == Accepted(formats, maxSize, a) + Accepted(formats, maxSize, b)
    decreases |b|
  {
    if b == [] {
      assert a + b == a;
    } else {
      var n := |b| - 1;
      assert (a + b)[..|a + b| - 1] == a + b[..n] && (a + b)[|a + b| - 1] == b[n];
      AcceptedAppend(formats, maxSize, a, b[..n]);
    }
  }

  /** Exactly the valid files of the batch reach `onUpload`. */
  lemma {:induction false} AcceptedMembers(formats: seq<string>, maxSize: real, files: seq<FileRef>)
    ensures forall f :: f in Accepted(formats, maxSize, files) <==> f in files && ValidateFile(formats, maxSize, f).valid
  {
    if files != [] {
      var n := |files| - 1;
      AcceptedMembers(formats, maxSize, files[..n]);
      assert files == files[..n] + [files[n]];
      assert forall f :: f in files <==> f in files[..n] || f == files[n];
    }
  }

  /** The drop zone and picker; validation and uploads go through the screen it sits on. */
  class Uploader {
    const page: Page
    const maxSize: real
    const allowedFormats: seq<string>

    /** Omitted props take their defaults: 5 MB and no formats. */
    constructor (page: Page, maxSize: Option<real>, allowedFormats: Option<seq<string>>)
      ensures this.page == page
      ensures this.maxSize == (if maxSize.Some? then maxSize.value else DefaultMaxSize)
      ensures this.allowedFormats == (if allowedFormats.Some? then allowedFormats.value else DefaultAllowedFormats)
    {
      this.page := page;
      this.maxSize := if maxSize.Some? then maxSize.value else DefaultMaxSize;
      this.allowedFormats := if allowedFormats.Some? then allowedFormats.value else DefaultAllowedFormats;
    }

    /**
     * `handleFiles(fileList)`: `ids[i]` is the id drawn for the i-th file.
     * Returns the files handed to `onUpload`, in order.
     */
    method HandleFiles(fileList: Option<seq<FileRef>>, ids: seq<string>) returns (uploaded: seq<FileRef>)
      requires fileList.Some? ==> |ids| == |fileList.value|
      modifies page.store
      ensures fileList.None? ==> uploaded == [] && page.store.files == old(page.store.files)
      ensures fileList.Some? ==>
        && uploaded == Accepted(page.allowedFormats, page.maxSize, fileList.value)
        && page.store.files == old(page.store.files) + Intake(page.allowedFormats, page.maxSize, fileList.value, ids)
    {
      uploaded := [];
      if fileList.None? {
        return;
      }
      var files := fileList.value;
      for i := 0 to |files|
        invariant uploaded == Accepted(page.allowedFormats, page.maxSize, files[..i])
        invariant page.store.files == old(page.store.files) + Intake(page.allowedFormats, page.maxSize, files[..i], ids[..i])
      {
        BatchStep(page.allowedFormats, page.maxSize, files, ids, i);
        ghost var done := Intake(page.allowedFormats, page.maxSize, files[..i], ids[..i]);
        ghost var added := Outcome(page.allowedFormats, page.maxSize, files[i], ids[i]);
        AppendRegroup(old(page.store.files), done, added);
        var validation := page.Validate(files[i]);
        if validation.valid {
          page.HandleUpload(files[i], ids[i]);
          uploaded := uploaded + [files[i]];
        } else if validation.error.Some? && validation.error.value != "" {
          page.store.AddFile(FailedUpload(ids[i], files[i], validation.error.value));
        }
      }
      assert files[..|files|] == files && ids[..|files|] == ids;
    }
  }

  // ---- the texts it highlights ----

  /** The format hint under the drop zone; it names every format. */
  function Hint(formats: seq<string>): (r: string)
    ensures forall k :: k in formats ==> Contains(r, k)
  {
    HintNamesAll(formats);
    "File must be " + Join(formats, " or ")
  }

  lemma HintNamesAll(formats: seq<string>)
    ensures forall k :: k in formats ==> Contains("File must be " + Join(formats, " or "), k)
  {
    forall k | k in formats ensures Contains("File must be " + Join(formats, " or "), k) {
      var i :| 0 <= i < |formats| && formats[i] == k;
      JoinContains(formats, " or ", i);
      var j :| OccursAt(Join(formats, " or "), k, j);
      OccursInContext("File must be ", Join(formats, " or "), "", k, j);
      assert "File must be " + Join(formats, " or ") + "" == "File must be " + Join(formats, " or ");
    }
  }

  /** The hint names every format, so the missing-keyword check reports none. */
  lemma HintMissesNoFormat(formats: seq<string>)
    ensures MissingKeywords(Hint(formats), formats) == []
  {
    var text := Hint(formats);
    forall k | k in formats ensures Contains(LowerStr(text), LowerStr(k)) {
      var i :| 0 <= i < |formats| && formats[i] == k;
      JoinContains(formats, " or ", i);
      ContainsLower(Join(formats, " or "), k);
      ContainsLowerInContext("File must be ", Join(formats, " or "), "", LowerStr(k));
      assert "File must be " + Join(formats, " or ") + "" == text;
    }
  }

  /** With non-empty formats the hint renders in full. */
  lemma HintRendersWhole(formats: seq<string>)
    requires "" !in formats
    ensures Flatten(Highlight(Hint(formats), formats)) == Hint(formats)
  {
    HighlightRoundTrip(Hint(formats), formats);
  }


  /** The drop zone's title. */
  const DragText: string := "Drag & drop a file or browse to upload"
  const DragKeywords: seq<string> := ["file", "browse"]

  /** The drop-zone title highlights "file" and "browse", tagged with their places in the keyword list. */
  lemma DragTextParts()
    ensures Highlight(DragText, DragKeywords)
      == [Plain("Drag & drop a "), Mark("file", 0), Plain(" or "), Mark("browse", 1), Plain(" to upload")]
  {
    assert DragText == "Drag & drop a " + "file" + " or " + "browse" + " to upload";
    TwoKeywordLine("Drag & drop a ", "file", " or ", "browse", " to upload");
  }
}
