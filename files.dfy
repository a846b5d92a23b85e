/** The file system as the program observes it: one record per existing path. */
module Files {
  import opened Common
  import opened Paths

  /** A byte buffer read into memory; a Rust `Vec` holds at most `isize::MAX` elements. */
  type Bytes = s: seq<byte> | |s| < 0x8000_0000_0000_0000

  /**
   * What the file system reports about one existing path: whether it is a directory, what
   * `fs::metadata` returns (a length or an error text) and what `fs::read` returns.
   */
  datatype FileInfo = FileInfo(isDir: bool, metadata: Result<u64, string>, contents: Result<Bytes, string>)

  /** A path that is not a key does not exist. */
  type FileSystem = map<Path, FileInfo>

  /** The error text the operating system gives for a path that does not exist. */
  const NotFoundReason := "No such file or directory (os error 2)"

  /** `fs::metadata(p).len()`. */
  function Metadata(fs: FileSystem, p: Path): Result<u64, string> {
    if p in fs then fs[p].metadata else Err(NotFoundReason)
  }

  /** `fs::read(p)`. */
  function ReadFile(fs: FileSystem, p: Path): Result<Bytes, string> {
    if p in fs then fs[p].contents else Err(NotFoundReason)
  }

  /** Every file whose length and contents are both readable has as many bytes as its length says. */
  predicate Consistent(fs: FileSystem) {
    forall p | p in fs && fs[p].metadata.Ok? && fs[p].contents.Ok? ::
      |fs[p].contents.value| == fs[p].metadata.value
  }
}
