/** The file layer under the favourites store: reading and atomically writing
    one named file in the application's documents directory, and the error
    each failure is reported as. The file system is a value; the faults a
    real device can raise are flags of that value. */
module FileStore {
  import opened Wrappers

  newtype byte = x: int | 0 <= x < 256

  type Data = seq<byte>

  /** `DiskStorageManager.Error`. */
  datatype StorageError = FileNotExists | InvalidDirectory | WritingFailed | ReadingFailed

  /** The part of the device the store can observe.
      `documentDirectory` is false when the system reports no documents URL;
      `files` maps a file name inside that directory to its contents;
      `readFault` makes reading an existing file throw;
      `writeFault` makes an atomic write throw. */
  datatype FileSystem = FileSystem(
    documentDirectory: bool,
    files: map<string, Data>,
    readFault: bool,
    writeFault: bool)

  /** The result of a save: the device after the call and what it reported. */
  datatype Saved = Saved(fs: FileSystem, outcome: Outcome<StorageError>)

  /** `read(fileNamed:)`: a missing directory is reported before a missing
      file, which is reported before a read failure. */
  function Read(fs: FileSystem, name: string): (r: Result<Data, StorageError>)
    ensures r.Success? <==> fs.documentDirectory && name in fs.files && !fs.readFault
    ensures r.Success? ==> r.value == fs.files[name]
    ensures r == Failure(InvalidDirectory) <==> !fs.documentDirectory
    ensures r == Failure(FileNotExists) <==> fs.documentDirectory && name !in fs.files
    ensures r.Failure? ==> r.error != WritingFailed
  {
    if !fs.documentDirectory then Failure(InvalidDirectory)
    else if name !in fs.files then Failure(FileNotExists)
    else if fs.readFault then Failure(ReadingFailed)
    else Success(fs.files[name])
  }

  /** `save(fileNamed:data:)` with an atomic write: on success exactly the
      named file holds `data`; on failure the device is untouched. */
  function Save(fs: FileSystem, name: string, data: Data): (r: Saved)
    ensures r.outcome.Pass? <==> fs.documentDirectory && !fs.writeFault
    ensures r.outcome.Pass? ==> r.fs.files == fs.files[name := data]
    ensures r.outcome.Fail? ==> r.fs == fs
    ensures r.outcome == Fail(InvalidDirectory) <==> !fs.documentDirectory
    ensures r.outcome.Fail? ==> r.outcome.error in {InvalidDirectory, WritingFailed}
    ensures r.fs.documentDirectory == fs.documentDirectory
    ensures r.fs.readFault == fs.readFault && r.fs.writeFault == fs.writeFault
  {
    if !fs.documentDirectory then Saved(fs, Fail(InvalidDirectory))
    else if fs.writeFault then Saved(fs, Fail(WritingFailed))
    else Saved(fs.(files := fs.files[name := data]), Pass)
  }

  /** What a successful save wrote is what the next read returns, unless
      reading itself faults. */
  lemma SaveThenRead(fs: FileSystem, name: string, data: Data)
    requires Save(fs, name, data).outcome.Pass?
    requires !fs.readFault
    ensures Read(Save(fs, name, data).fs, name) == Success(data)
  {
  }

  /** A save leaves every other file as it was, whether it succeeds or not. */
  lemma SaveKeepsOtherFiles(fs: FileSystem, name: string, data: Data, other: string)
    requires other != name
    ensures Read(Save(fs, name, data).fs, other) == Read(fs, other)
  {
  }
}
