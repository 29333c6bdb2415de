/**
 * The managed artifact on disk: file contents as bytes, the file system as a map
 * from path to contents, and the file-version oracle (`ParseFileVersion`).
 */
module Artifact {
  import opened Wrappers
  import opened Versions

  newtype byte = x: int | 0 <= x < 256

  type Bytes = seq<byte>

  /** The files the updater can see, by full path. */
  type FileSystem = map<string, Bytes>

  /**
   * The platform's file-version reader (`FileVersionInfo.GetVersionInfo(path).FileVersion`):
   * the version text stored in an assembly's metadata, or `None` when it has none.
   */
  type Metadata = Bytes -> Option<string>

  /** The exceptions the file steps raise. */
  datatype FileError =
    | FileNotFound(path: string)       // the file to read or move does not exist
    | NoVersionInfo(path: string)      // the assembly carries no file version
    | BadVersionText(path: string)     // the file version is not four numbers in range
    | DestinationExists(path: string)  // `File.Move` onto an existing file

  /**
   * `ParseFileVersion(path)`: the version in the metadata of the file at `path`.
   * The installed and the bundled copy are read by this one function.
   */
  function ParseFileVersion(fs: FileSystem, path: string, metadata: Metadata): (r: Result<Version, FileError>)
    ensures path !in fs ==> r == Failure(FileNotFound(path))
    ensures r.Success? ==>
      && path in fs
      && metadata(fs[path]).Some?
      && ParseVersion(metadata(fs[path]).value) == Some(r.value)
      && InRange(r.value)
    ensures r.Failure? && path in fs ==>
      metadata(fs[path]).None? || ParseVersion(metadata(fs[path]).value).None?
  {
    if path !in fs then Failure(FileNotFound(path))
    else match metadata(fs[path])
      case None => Failure(NoVersionInfo(path))
      case Some(text) =>
        match ParseVersion(text)
        case None => Failure(BadVersionText(path))
        case Some(v) => Success(v)
  }
}
