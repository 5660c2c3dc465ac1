/** The upload record kept for every file the user has picked (`FileWithProgress`). */
module UploadTypes {
  import opened Wrappers

  /** Where an upload stands. */
  datatype Status = Uploading | Completed | Failed

  /**
   * The browser's `File` handle, reduced to what the widget reads from it:
   * its name, its MIME type and its size in bytes.
   */
  datatype FileRef = FileRef(name: string, mimeType: string, size: nat)

  /**
   * One tracked upload attempt. `progress` is whatever number was last
   * reported (the store does not clamp it), `error` is `null` or a message.
   */
  datatype Record = Record(id: string, file: FileRef, progress: int, status: Status, error: Option<string>)
}
