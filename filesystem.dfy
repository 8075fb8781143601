/**
 * The part of the operating system the tree renderer sees: file information
 * as `os.FileInfo` reports it, and directories whose listing either succeeds
 * or fails. The real filesystem calls become this in-memory value.
 */
module FileSystem {

  datatype Option<+T> = None | Some(value: T)

  datatype Result<+T, +E> = Success(value: T) | Failure(error: E)

  /** Go's `int64`, the type of `os.FileInfo.Size()`. */
  type int64 = x: int | -0x8000_0000_0000_0000 <= x < 0x8000_0000_0000_0000

  /** The error kinds a directory listing or opening a path can report. */
  datatype FsError = NotFound | PermissionDenied | NotADirectory

  /** What `os.FileInfo` gives: `Name()`, `IsDir()` and `Size()`. */
  datatype FileInfo = FileInfo(name: string, isDir: bool, size: int64)

  /**
   * One entry of the filesystem together with what listing it as a directory
   * yields. `contents` is consulted only for directories.
   */
  datatype Entry = Entry(info: FileInfo, contents: Listing)

  datatype Listing = Listed(entries: seq<Entry>) | Unreadable(error: FsError)

  /** `ioutil.ReadDir` on the path of `e`: a non-directory cannot be listed. */
  function ReadDir(e: Entry): (r: Result<seq<Entry>, FsError>)
    ensures r.Success? <==> e.info.isDir && e.contents.Listed?
    ensures r.Success? ==> r.value == e.contents.entries
    ensures !e.info.isDir ==> r == Failure(NotADirectory)
  {
    if !e.info.isDir then Failure(NotADirectory)
    else match e.contents
      case Listed(entries) => Success(entries)
      case Unreadable(error) => Failure(error)
  }

  /** Names inside one directory are unique. */
  predicate UniqueNames(entries: seq<Entry>) {
    forall p, q | 0 <= p < q < |entries| :: entries[p].info.name != entries[q].info.name
  }

  /**
   * What every real filesystem guarantees: no name contains `/`, and names
   * are unique within each directory listing.
   */
  predicate WellFormed(e: Entry)
    decreases e
  {
    && '/' !in e.info.name
    && (e.contents.Listed? ==>
          && UniqueNames(e.contents.entries)
          && forall k | k in e.contents.entries :: WellFormed(k))
  }
}
