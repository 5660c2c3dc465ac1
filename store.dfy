/**
 * The upload list store: one ordered list of upload records, replaced as a
 * whole by each of its five actions. Each action's new list is given by a
 * pure function of the old one; the `Store` class holds the current list.
 */
module UploadStore {
  import opened Wrappers
  import opened UploadTypes

  /** The ids in list order. */
  function Ids(files: seq<Record>): (ids: seq<string>)
    ensures |ids| == |files|
    ensures forall i :: 0 <= i < |files| ==> ids[i] == files[i].id
  {
    if files == [] then [] else [files[0].id] + Ids(files[1..])
  }

  /** At most one record per id: the invariant the callers are meant to keep. */
  predicate UniqueIds(files: seq<Record>) {
    forall i, j :: 0 <= i < j < |files| ==> files[i].id != files[j].id
  }

  /** `state.files.filter(file => file.id !== id)`. */
  function Removed(files: seq<Record>, id: string): (r: seq<Record>)
    ensures |r| <= |files|
    ensures forall x :: x in r <==> x in files && x.id != id
  {
    if files == [] then []
    else if files[0].id == id then Removed(files[1..], id)
    else [files[0]] + Removed(files[1..], id)
  }

  /** `state.files.map(file => file.id === id ? { ...file, progress } : file)`. */
  function WithProgress(files: seq<Record>, id: string, progress: int): (r: seq<Record>)
    ensures |r| == |files|
    ensures forall i :: 0 <= i < |files| ==>
      r[i] == if files[i].id == id then files[i].(progress := progress) else files[i]
  {
    if files == [] then []
    else
      var head := if files[0].id == id then files[0].(progress := progress) else files[0];
      [head] + WithProgress(files[1..], id, progress)
  }

  /** `state.files.map(file => file.id === id ? { ...file, status, error } : file)`. */
  function WithStatus(files: seq<Record>, id: string, status: Status, error: Option<string>): (r: seq<Record>)
    ensures |r| == |files|
    ensures forall i :: 0 <= i < |files| ==>
      r[i] == if files[i].id == id then files[i].(status := status, error := error) else files[i]
  {
    if files == [] then []
    else
      var head := if files[0].id == id then files[0].(status := status, error := error) else files[0];
      [head] + WithStatus(files[1..], id, status, error)
  }

  /** The store object; `files` is replaced by every action. */
  class Store {
    var files: seq<Record>

    constructor ()
      ensures files == []
    {
      files := [];
    }

    method AddFile(file: Record)
      modifies this
      ensures files == old(files) + [file]
    {
      files := files + [file];
    }

    method RemoveFile(id: string)
      modifies this
      ensures files == Removed(old(files), id)
    {
      files := Removed(files, id);
    }

    method UpdateFileProgress(id: string, progress: int)
      modifies this
      ensures files == WithProgress(old(files), id, progress)
    {
      files := WithProgress(files, id, progress);
    }

    method UpdateFileStatus(id: string, status: Status, error: Option<string>)
      modifies this
      ensures files == WithStatus(old(files), id, status, error)
    {
      files := WithStatus(files, id, status, error);
    }

    method ClearFiles()
      modifies this
      ensures files == []
    {
      files := [];
    }
  }

  // ---- addFile ----

  /** Adding appends at the tail: one more record, every earlier one unchanged and in place. */
  lemma AddAppendsAtTail(files: seq<Record>, file: Record)
    ensures |files + [file]| == |files| + 1
    ensures (files + [file])[|files|] == file
    ensures (files + [file])[..|files|] == files
  {
  }

  /** `addFile` does not look for the id: the list stays one-record-per-id exactly when the id is fresh. */
  lemma {:induction false} AddKeepsUniqueIffFresh(files: seq<Record>, file: Record)
    requires UniqueIds(files)
    ensures UniqueIds(files + [file]) <==> file.id !in Ids(files)
  {
    var s := files + [file];
    if file.id in Ids(files) {
      var i :| 0 <= i < |files| && Ids(files)[i] == file.id;
      assert s[i].id == s[|files|].id;
    }
  }

  // ---- removeFile ----

  /** Filtering distributes over concatenation: survivors keep their relative order. */
  lemma {:induction false} RemovedAppend(a: seq<Record>, b: seq<Record>, id: string)
    ensures Removed(a + b, id) == Removed(a, id) + Removed(b, id)
  {
    if a == [] {
      assert a + b == b;
    } else {
      assert (a + b)[1..] == a[1..] + b;
      RemovedAppend(a[1..], b, id);
    }
  }

  /** Removing an id that is absent leaves the list unchanged. */
  lemma {:induction false} RemoveAbsent(files: seq<Record>, id: string)
    requires id !in Ids(files)
    ensures Removed(files, id) == files
  {
    if files != [] {
      assert Ids(files[1..]) == Ids(files)[1..];
      RemoveAbsent(files[1..], id);
    }
  }

  /** Removing twice is removing once. */
  lemma RemoveIdempotent(files: seq<Record>, id: string)
    ensures Removed(Removed(files, id), id) == Removed(files, id)
  {
    var r := Removed(files, id);
    forall i | 0 <= i < |r| ensures Ids(r)[i] != id {
      assert r[i] in r;
    }
    RemoveAbsent(r, id);
  }

  /** Survivors of a removal in a one-record-per-id list still have one record per id. */
  lemma {:induction false} RemoveKeepsUnique(files: seq<Record>, id: string)
    requires UniqueIds(files)
    ensures UniqueIds(Removed(files, id))
  {
    if files != [] {
      RemoveKeepsUnique(files[1..], id);
      var rest := Removed(files[1..], id);
      forall x | x in rest ensures x.id != files[0].id {
        var j :| 0 <= j < |files[1..]| && files[1..][j] == x;
        assert files[j + 1] == x;
      }
      if files[0].id != id {
        var r := [files[0]] + rest;
        forall i, j | 0 <= i < j < |r| ensures r[i].id != r[j].id {
          if i == 0 { assert r[j] in rest; }
          else { assert r[i] == rest[i - 1] && r[j] == rest[j - 1]; }
        }
      }
    }
  }

  // ---- updateFileProgress ----

  /** Only `progress` changes, and only on records with that id; the value is stored as given. */
  lemma ProgressChangesOnlyProgress(files: seq<Record>, id: string, progress: int)
    ensures Ids(WithProgress(files, id, progress)) == Ids(files)
    ensures forall i :: 0 <= i < |files| ==>
      var r := WithProgress(files, id, progress)[i];
      r.file == files[i].file && r.status == files[i].status && r.error == files[i].error &&
      r.progress == (if files[i].id == id then progress else files[i].progress)
  {
  }

  /** A progress update for an absent id is a no-op. */
  lemma ProgressAbsent(files: seq<Record>, id: string, progress: int)
    requires id !in Ids(files)
    ensures WithProgress(files, id, progress) == files
  {
    var r := WithProgress(files, id, progress);
    forall i | 0 <= i < |files| ensures r[i] == files[i] {
      assert Ids(files)[i] == files[i].id;
    }
  }

  lemma ProgressIdempotent(files: seq<Record>, id: string, progress: int)
    ensures WithProgress(WithProgress(files, id, progress), id, progress) == WithProgress(files, id, progress)
  {
  }

  // ---- updateFileStatus ----

  /** `status` and `error` change together on records with that id; id, file and progress stay. */
  lemma StatusChangesOnlyStatus(files: seq<Record>, id: string, status: Status, error: Option<string>)
    ensures Ids(WithStatus(files, id, status, error)) == Ids(files)
    ensures forall i :: 0 <= i < |files| ==>
      var r := WithStatus(files, id, status, error)[i];
      r.file == files[i].file && r.progress == files[i].progress &&
      (files[i].id == id ==> r.status == status && r.error == error) &&
      (files[i].id != id ==> r == files[i])
  {
  }

  /** A status update for an absent id is a no-op. */
  lemma StatusAbsent(files: seq<Record>, id: string, status: Status, error: Option<string>)
    requires id !in Ids(files)
    ensures WithStatus(files, id, status, error) == files
  {
    var r := WithStatus(files, id, status, error);
    forall i | 0 <= i < |files| ensures r[i] == files[i] {
      assert Ids(files)[i] == files[i].id;
    }
  }

  lemma StatusIdempotent(files: seq<Record>, id: string, status: Status, error: Option<string>)
    ensures WithStatus(WithStatus(files, id, status, error), id, status, error) == WithStatus(files, id, status, error)
  {
  }

  // ---- a whole session ----

  /**
   * Adding a record under a fresh id as uploading at 0, then reporting 55,
   * then completing it appends exactly one record, at 55, completed, with no
   * error, and leaves the rest alone.
   */
  lemma AddProgressComplete(files: seq<Record>, id: string, file: FileRef)
    requires id !in Ids(files)
    ensures WithStatus(WithProgress(files + [Record(id, file, 0, Uploading, None)], id, 55), id, Completed, None)
      == files + [Record(id, file, 55, Completed, None)]
  {
    var added := files + [Record(id, file, 0, Uploading, None)];
    var p := WithProgress(added, id, 55);
    var s := WithStatus(p, id, Completed, None);
    forall i | 0 <= i < |files| ensures s[i] == files[i] {
      assert Ids(files)[i] == files[i].id;
      assert added[i] == files[i];
    }
  }

  /** The same session on a fresh store. */
  method AddProgressCompleteScenario(file: FileRef) returns (store: Store)
    ensures fresh(store)
    ensures store.files == [Record("f1", file, 55, Completed, None)]
  {
    store := new Store();
    store.AddFile(Record("f1", file, 0, Uploading, None));
    store.UpdateFileProgress("f1", 55);
    store.UpdateFileStatus("f1", Completed, None);
    AddProgressComplete([], "f1", file);
  }

  // ---- any run of actions ----

  /** One call of a store action. */
  datatype StoreAction =
    | AddRecord(record: Record)
    | RemoveId(id: string)
    | SetProgress(id: string, progress: int)
    | SetStatus(id: string, status: Status, error: Option<string>)
    | ClearAll

  /** The list after one action. */
  function Step(files: seq<Record>, a: StoreAction): seq<Record> {
    match a
    case AddRecord(record) => files + [record]
    case RemoveId(id) => Removed(files, id)
    case SetProgress(id, progress) => WithProgress(files, id, progress)
    case SetStatus(id, status, error) => WithStatus(files, id, status, error)
    case ClearAll => []
  }

  /** The list after actions applied in the given order. */
  function Run(files: seq<Record>, actions: seq<StoreAction>): seq<Record>
    decreases |actions|
  {
    if actions == [] then files else Run(Step(files, actions[0]), actions[1..])
  }

  /** Every record added during the run carries an id not listed at the time it is added. */
  predicate FreshAdds(files: seq<Record>, actions: seq<StoreAction>)
    decreases |actions|
  {
    actions == [] ||
      ((actions[0].AddRecord? ==> actions[0].record.id !in Ids(files))
       && FreshAdds(Step(files, actions[0]), actions[1..]))
  }

  /** A single action keeps one record per id, an add provided its id is fresh. */
  lemma StepKeepsUnique(files: seq<Record>, a: StoreAction)
    requires UniqueIds(files)
    requires a.AddRecord? ==> a.record.id !in Ids(files)
    ensures UniqueIds(Step(files, a))
  {
    match a
    case AddRecord(record) => AddKeepsUniqueIffFresh(files, record);
    case RemoveId(id) => RemoveKeepsUnique(files, id);
    case SetProgress(id, progress) => ProgressChangesOnlyProgress(files, id, progress);
    case SetStatus(id, status, error) => StatusChangesOnlyStatus(files, id, status, error);
    case ClearAll =>
  }

  /**
   * The store's invariant over any run of its actions: a one-record-per-id
   * list stays one-record-per-id as long as every add uses a fresh id.
   */
  lemma {:induction false} RunKeepsUnique(files: seq<Record>, actions: seq<StoreAction>)
    requires UniqueIds(files) && FreshAdds(files, actions)
    ensures UniqueIds(Run(files, actions))
    decreases |actions|
  {
    if actions != [] {
      StepKeepsUnique(files, actions[0]);
      RunKeepsUnique(Step(files, actions[0]), actions[1..]);
    }
  }
}
