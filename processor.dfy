/**
 * File validation and the choice and outcome of the processing strategy: a single image is
 * re-encoded to WebP, a single other file is copied, several files are put in a zip archive.
 */
module Processor {
  import opened Common
  import opened Text
  import opened Paths
  import opened Files

  const MaxFiles: nat := 50
  const MaxSingleFileSize: u64 := 500 * 1024 * 1024
  const MaxTotalSize: u64 := 1024 * 1024 * 1024

  const AllowedExtensions: seq<string> := [
    "jpg", "jpeg", "png", "gif", "bmp", "tiff", "tif", "webp", "heic", "heif",
    "pdf", "doc", "docx", "xls", "xlsx", "ppt", "pptx", "txt", "rtf", "csv",
    "zip", "tar", "gz", "7z", "rar",
    "mov", "mp4", "avi", "mkv", "webm", "m4v",
    "mp3", "wav", "aac", "flac", "m4a", "ogg",
    "json", "xml", "html", "css", "js", "ts", "py", "rs", "go", "swift",
    "svg", "ico", "dmg", "pkg", "app"
  ]

  /** Extensions that are re-encoded to WebP when dropped alone. */
  const ImageExtensions: seq<string> := ["jpg", "jpeg", "png", "gif", "bmp", "tiff", "tif"]

  datatype ProcessResult = ProcessResult(outputPath: Path, originalSize: u64, processedSize: u64, fileType: string)

  /** Why a selection was rejected; the sizes of the two size errors are kept in bytes. */
  datatype ValidationKind =
    | NoFiles
    | TooManyFiles
    | NotFound(path: Path)
    | IsDirectory
    | Unreadable(reason: string)
    | TooLarge(name: string, size: u64)
    | UnsupportedType(ext: string, name: string)
    | TotalTooLarge(total: u64)

  datatype ValidationError = ValidationError(kind: ValidationKind, file: Option<Path>)

  /**
   * The message of a validation error. `mb` renders a byte count as megabytes with one
   * decimal (the floating-point division formatted with precision 1), which this model does not compute.
   */
  function Message(k: ValidationKind, mb: u64 -> string): string {
    match k
    case NoFiles => "No files provided"
    case TooManyFiles => "Too many files. Maximum is " + NatToString(MaxFiles) + " files."
    case NotFound(p) => "File not found: " + p
    case IsDirectory => "Directories are not supported. Please zip the folder first."
    case Unreadable(e) => "Cannot read file: " + e
    case TooLarge(name, size) => "\"" + name + "\" is too large (" + mb(size) + " MB). Maximum file size is 500 MB."
    case UnsupportedType(ext, name) => "Unsupported file type: ." + ext + " (" + name + ")"
    case TotalTooLarge(total) => "Total size (" + mb(total) + " MB) exceeds 1 GB limit."
  }

  /** The file name used in messages and archive entries. */
  function NameOrFile(p: Path): string {
    FileName(p).GetOr("file")
  }

  function LowerExtension(p: Path): Option<string> {
    match Extension(p)
    case Some(e) => Some(Lower(e))
    case None => None
  }

  /** An image has an extension that, lower-cased, also passes validation's allow-list. */
  predicate IsImage(p: Path): (b: bool)
    ensures b ==> Extension(p).Some? && Lower(Extension(p).value) in AllowedExtensions
  {
    LowerExtension(p).Some? && LowerExtension(p).value in ImageExtensions
  }

  /** A WebP file passes validation's allow-list but is not an image to convert. */
  predicate IsWebp(p: Path): (b: bool)
    ensures b ==> Extension(p).Some? && Lower(Extension(p).value) in AllowedExtensions
    ensures b ==> Lower(Extension(p).value) !in ImageExtensions
  {
    LowerExtension(p) == Some("webp")
  }

  // ---------------------------------------------------------------------------------------
  // Validation
  // ---------------------------------------------------------------------------------------

  /** The checks made on one path, in the order the validation loop makes them; on success, its size. */
  function CheckFile(fs: FileSystem, p: Path): (r: Result<u64, ValidationKind>)
    ensures r.Ok? ==> p in fs && !fs[p].isDir && fs[p].metadata == Ok(r.value) && r.value <= MaxSingleFileSize
  {
    if p !in fs then Err(NotFound(p))
    else if fs[p].isDir then Err(IsDirectory)
    else match fs[p].metadata
      case Err(e) => Err(Unreadable(e))
      case Ok(size) =>
        if size > MaxSingleFileSize then Err(TooLarge(NameOrFile(p), size))
        else match LowerExtension(p)
          case Some(ext) => if ext !in AllowedExtensions then Err(UnsupportedType(ext, NameOrFile(p))) else Ok(size)
          case None => Ok(size)
  }

  /** The error for the first path of `paths` that fails its checks. */
  function FirstInvalid(fs: FileSystem, paths: seq<Path>): (r: Option<ValidationError>)
    ensures r.Some? ==>
      exists i :: 0 <= i < |paths| && CheckFile(fs, paths[i]).Err? &&
        r.value == ValidationError(CheckFile(fs, paths[i]).error, Some(paths[i]))
    decreases |paths|
  {
    if paths == [] then None
    else match FirstInvalid(fs, paths[..|paths| - 1])
      case Some(e) =>
        var i :| 0 <= i < |paths| - 1 && CheckFile(fs, paths[..|paths| - 1][i]).Err? &&
          e == ValidationError(CheckFile(fs, paths[..|paths| - 1][i]).error, Some(paths[..|paths| - 1][i]));
        assert paths[..|paths| - 1][i] == paths[i];
        Some(e)
      case None =>
        var p := paths[|paths| - 1];
        match CheckFile(fs, p)
        case Err(k) => Some(ValidationError(k, Some(p)))
        case Ok(_) => None
  }

  /** Sum of the sizes of the paths that pass their checks. */
  function TotalSize(fs: FileSystem, paths: seq<Path>): nat
    decreases |paths|
  {
    if paths == [] then 0
    else
      TotalSize(fs, paths[..|paths| - 1]) +
      (match CheckFile(fs, paths[|paths| - 1]) case Ok(n) => n as nat case Err(_) => 0)
  }

  /** The validation of a selection, as a function of the file system. */
  function Validate(fs: FileSystem, paths: seq<Path>): (r: Result<(), ValidationError>)
    ensures r.Ok? ==> 1 <= |paths| <= MaxFiles
    ensures r.Err? && r.error.file.Some? ==> r.error.file.value in paths
    ensures r.Err? && r.error.file.None? ==>
      r.error.kind == NoFiles || r.error.kind == TooManyFiles || r.error.kind.TotalTooLarge?
  {
    if |paths| == 0 then Err(ValidationError(NoFiles, None))
    else if |paths| > MaxFiles then Err(ValidationError(TooManyFiles, None))
    else match FirstInvalid(fs, paths)
      case Some(e) => Err(e)
      case None =>
        TotalSizeBound(fs, paths);
        if TotalSize(fs, paths) > MaxTotalSize then Err(ValidationError(TotalTooLarge(TotalSize(fs, paths) as u64), None))
        else Ok(())
  }

  /** When every path passes, the total is at most one maximal file per path. */
  lemma {:induction false} TotalSizeBound(fs: FileSystem, paths: seq<Path>)
    requires FirstInvalid(fs, paths) == None
    ensures TotalSize(fs, paths) <= |paths| * MaxSingleFileSize
    decreases |paths|
  {
    if paths != [] {
      TotalSizeBound(fs, paths[..|paths| - 1]);
    }
  }

  /** Once a prefix of the selection holds a failing path, that failure is the selection's. */
  lemma {:induction false} FirstInvalidOfPrefix(fs: FileSystem, paths: seq<Path>, j: nat)
    requires j <= |paths| && FirstInvalid(fs, paths[..j]).Some?
    ensures FirstInvalid(fs, paths) == FirstInvalid(fs, paths[..j])
    decreases |paths|
  {
    if j < |paths| {
      var init := paths[..|paths| - 1];
      assert init[..j] == paths[..j];
      FirstInvalidOfPrefix(fs, init, j);
    } else {
      assert paths[..j] == paths;
    }
  }

  /**
   * One step of the validation loop, once the paths before `i` have passed: a failure of path
   * `i` is the selection's failure; a pass extends the accepted prefix and adds the size.
   */
  lemma CheckStep(fs: FileSystem, paths: seq<Path>, i: nat)
    requires i < |paths| <= MaxFiles && FirstInvalid(fs, paths[..i]) == None
    ensures CheckFile(fs, paths[i]).Err? ==>
      FirstInvalid(fs, paths) == Some(ValidationError(CheckFile(fs, paths[i]).error, Some(paths[i])))
    ensures CheckFile(fs, paths[i]).Ok? ==>
      && FirstInvalid(fs, paths[..i + 1]) == None
      && TotalSize(fs, paths[..i + 1]) == TotalSize(fs, paths[..i]) + CheckFile(fs, paths[i]).value as nat
    ensures TotalSize(fs, paths[..i]) + MaxSingleFileSize as nat <= MaxFiles * MaxSingleFileSize
  {
    var prefix := paths[..i + 1];
    assert prefix[..i] == paths[..i] && prefix[i] == paths[i];
    if CheckFile(fs, paths[i]).Err? {
      FirstInvalidOfPrefix(fs, paths, i + 1);
    } else {
      assert FirstInvalid(fs, prefix) == None;
      assert TotalSize(fs, prefix) == TotalSize(fs, paths[..i]) + CheckFile(fs, paths[i]).value as nat;
    }
    TotalSizeBound(fs, paths[..i]);
    assert i * MaxSingleFileSize + MaxSingleFileSize <= MaxFiles * MaxSingleFileSize;
  }

  /** The validation loop, with its running total in a u64 that provably cannot overflow. */
  method ValidateFiles(fs: FileSystem, paths: seq<Path>) returns (r: Result<(), ValidationError>)
    ensures r == Validate(fs, paths)
  {
    if |paths| == 0 {
      return Err(ValidationError(NoFiles, None));
    }
    if |paths| > MaxFiles {
      return Err(ValidationError(TooManyFiles, None));
    }
    var totalSize: u64 := 0;
    for i := 0 to |paths|
      invariant FirstInvalid(fs, paths[..i]) == None
      invariant totalSize as nat == TotalSize(fs, paths[..i])
    {
      var path := paths[i];
      CheckStep(fs, paths, i);
      if path !in fs {
        return Err(ValidationError(NotFound(path), Some(path)));
      }
      if fs[path].isDir {
        return Err(ValidationError(IsDirectory, Some(path)));
      }
      var metadata := fs[path].metadata;
      if metadata.Err? {
        return Err(ValidationError(Unreadable(metadata.error), Some(path)));
      }
      var fileSize := metadata.value;
      if fileSize > MaxSingleFileSize {
        return Err(ValidationError(TooLarge(NameOrFile(path), fileSize), Some(path)));
      }
      totalSize := totalSize + fileSize;
      var ext := LowerExtension(path);
      if ext.Some? && ext.value !in AllowedExtensions {
        return Err(ValidationError(UnsupportedType(ext.value, NameOrFile(path)), Some(path)));
      }
    }
    assert paths[..|paths|] == paths;
    if totalSize > MaxTotalSize {
      return Err(ValidationError(TotalTooLarge(totalSize), None));
    }
    return Ok(());
  }

  // ---------------------------------------------------------------------------------------
  // Properties of validation
  // ---------------------------------------------------------------------------------------

  /** An empty or oversized selection is rejected without any file being looked at. */
  lemma CountChecksComeFirst(fs: FileSystem, other: FileSystem, paths: seq<Path>)
    ensures |paths| == 0 ==> Validate(fs, paths) == Err(ValidationError(NoFiles, None))
    ensures |paths| > MaxFiles ==> Validate(fs, paths) == Err(ValidationError(TooManyFiles, None))
    ensures |paths| == 0 || |paths| > MaxFiles ==> Validate(fs, paths) == Validate(other, paths)
  {
  }

  /** The order of the per-file checks: each error kind arises exactly when the earlier checks pass and its own fails. */
  lemma CheckOrder(fs: FileSystem, p: Path)
    ensures CheckFile(fs, p) == Err(NotFound(p)) <==> p !in fs
    ensures CheckFile(fs, p) == Err(IsDirectory) <==> p in fs && fs[p].isDir
    ensures (CheckFile(fs, p).Err? && CheckFile(fs, p).error.Unreadable?) <==>
      p in fs && !fs[p].isDir && fs[p].metadata.Err?
    ensures (CheckFile(fs, p).Err? && CheckFile(fs, p).error.TooLarge?) <==>
      p in fs && !fs[p].isDir && fs[p].metadata.Ok? && fs[p].metadata.value > MaxSingleFileSize
    ensures (CheckFile(fs, p).Err? && CheckFile(fs, p).error.UnsupportedType?) <==>
      p in fs && !fs[p].isDir && fs[p].metadata.Ok? && fs[p].metadata.value <= MaxSingleFileSize &&
      LowerExtension(p).Some? && LowerExtension(p).value !in AllowedExtensions
    ensures CheckFile(fs, p).Ok? ==> p in fs && fs[p].metadata == Ok(CheckFile(fs, p).value)
  {
  }

  /** The size limit is inclusive: exactly 500 MiB passes the size check, one byte more does not. */
  lemma SizeLimitIsInclusive(fs: FileSystem, p: Path, contents: Result<Bytes, string>)
    requires LowerExtension(p).None? || LowerExtension(p).value in AllowedExtensions
    ensures CheckFile(fs[p := FileInfo(false, Ok(MaxSingleFileSize), contents)], p) == Ok(MaxSingleFileSize)
    ensures CheckFile(fs[p := FileInfo(false, Ok(MaxSingleFileSize + 1), contents)], p) ==
      Err(TooLarge(NameOrFile(p), MaxSingleFileSize + 1))
  {
  }

  /** A regular file within the size limit passes exactly when it has no extension or an allowed lower-cased one. */
  lemma ExtensionRule(fs: FileSystem, p: Path)
    requires p in fs && !fs[p].isDir && fs[p].metadata.Ok? && fs[p].metadata.value <= MaxSingleFileSize
    ensures CheckFile(fs, p).Ok? <==> Extension(p).None? || Lower(Extension(p).value) in AllowedExtensions
  {
  }

  /** FirstInvalid names the first failing path, with that path's own error. */
  lemma {:induction false} FirstInvalidIsFirst(fs: FileSystem, paths: seq<Path>, i: nat)
    requires i < |paths| && CheckFile(fs, paths[i]).Err?
    requires forall j :: 0 <= j < i ==> CheckFile(fs, paths[j]).Ok?
    ensures FirstInvalid(fs, paths) == Some(ValidationError(CheckFile(fs, paths[i]).error, Some(paths[i])))
    decreases |paths|
  {
    var init := paths[..|paths| - 1];
    if i < |paths| - 1 {
      FirstInvalidIsFirst(fs, init, i);
    } else {
      NoneInvalid(fs, init);
    }
  }

  /** FirstInvalid finds nothing exactly when every path passes. */
  lemma {:induction false} NoneInvalid(fs: FileSystem, paths: seq<Path>)
    ensures FirstInvalid(fs, paths) == None <==> forall j :: 0 <= j < |paths| ==> CheckFile(fs, paths[j]).Ok?
    decreases |paths|
  {
    if paths != [] {
      var init := paths[..|paths| - 1];
      NoneInvalid(fs, init);
      assert forall j :: 0 <= j < |init| ==> init[j] == paths[j];
    }
  }

  /** The per-file error reported for a selection is that of its first failing path, checked in list order. */
  lemma FirstFailureWins(fs: FileSystem, paths: seq<Path>, i: nat)
    requires 1 <= |paths| <= MaxFiles
    requires i < |paths| && CheckFile(fs, paths[i]).Err?
    requires forall j :: 0 <= j < i ==> CheckFile(fs, paths[j]).Ok?
    ensures Validate(fs, paths) == Err(ValidationError(CheckFile(fs, paths[i]).error, Some(paths[i])))
  {
    FirstInvalidIsFirst(fs, paths, i);
  }

  /** A selection is accepted exactly when its count is in range, every path passes, and the sizes add up to at most 1 GiB. */
  lemma ValidIff(fs: FileSystem, paths: seq<Path>)
    ensures Validate(fs, paths).Ok? <==>
      1 <= |paths| <= MaxFiles &&
      (forall j :: 0 <= j < |paths| ==> CheckFile(fs, paths[j]).Ok?) &&
      TotalSize(fs, paths) <= MaxTotalSize
  {
    NoneInvalid(fs, paths);
  }

  /**
   * An error without a file is a count error or the aggregate-size error, and the aggregate
   * error comes only after every path passed, with the true total, which fits a u64.
   */
  lemma ErrorsWithoutFile(fs: FileSystem, paths: seq<Path>)
    requires Validate(fs, paths).Err? && Validate(fs, paths).error.file.None?
    requires 1 <= |paths| <= MaxFiles
    ensures forall j :: 0 <= j < |paths| ==> CheckFile(fs, paths[j]).Ok?
    ensures TotalSize(fs, paths) > MaxTotalSize
    ensures TotalSize(fs, paths) <= MaxFiles * MaxSingleFileSize
    ensures Validate(fs, paths).error.kind == TotalTooLarge(TotalSize(fs, paths) as u64)
  {
    NoneInvalid(fs, paths);
    TotalSizeBound(fs, paths);
  }

  // ---------------------------------------------------------------------------------------
  // Processing strategies
  // ---------------------------------------------------------------------------------------

  /** A failure while writing one archive entry: `start_file` or `write_all`. */
  datatype EntryFault = StartFails(reason: string) | WriteFails(reason: string)

  /**
   * The outcomes of the steps that the image, zip and file-system libraries perform. Each
   * output size is what `fs::metadata` reads back from the written file.
   */
  datatype Io = Io(
    createDir: Step,               // fs::create_dir_all(output_dir)
    decodeImage: Step,             // image::open, once the bytes are read
    createOutput: Step,            // File::create of the output path
    encodeWebp: Step,              // img.write_to(.., ImageFormat::WebP)
    flush: Step,                   // writer.flush()
    copy: Step,                    // fs::copy, once the source is readable
    entryFaults: map<nat, EntryFault>,  // archive entries, by position, that fail to be written
    finishZip: Step,               // zip.finish()
    outputSize: Result<u64, string>)

  /** The name of the WebP output: `<stem>_<id>.webp`, the stem defaulting to "image". */
  function WebpName(input: Path, id: string): string {
    FileStem(input).GetOr("image") + "_" + id + ".webp"
  }

  /** `convert_to_webp`. */
  function ConvertToWebp(fs: FileSystem, input: Path, outputDir: Path, id: string, io: Io): (r: Result<ProcessResult, string>)
    ensures r.Ok? ==> Metadata(fs, input) == Ok(r.value.originalSize) && ReadFile(fs, input).Ok?
    ensures r.Ok? ==> r.value.fileType == "webp" && io.outputSize == Ok(r.value.processedSize)
  {
    match Metadata(fs, input)
    case Err(e) => Err("Failed to read file metadata: " + e)
    case Ok(originalSize) =>
      if ReadFile(fs, input).Err? then Err("Failed to open image: " + ReadFile(fs, input).error)
      else if io.decodeImage.FailsWith? then Err("Failed to open image: " + io.decodeImage.reason)
      else
        var outputPath := Join(outputDir, WebpName(input, id));
        if io.createOutput.FailsWith? then Err("Failed to create output file: " + io.createOutput.reason)
        else if io.encodeWebp.FailsWith? then Err("Failed to write WebP: " + io.encodeWebp.reason)
        else if io.flush.FailsWith? then Err("Failed to flush: " + io.flush.reason)
        else match io.outputSize
          case Err(e) => Err("Failed to read output metadata: " + e)
          case Ok(processedSize) => Ok(ProcessResult(outputPath, originalSize, processedSize, "webp"))
  }

  /** The type tag of a copied file: its extension lower-cased, or "bin". */
  function CopyType(input: Path): string {
    Lower(Extension(input).GetOr("bin"))
  }

  /** The name of the copy: `<stem>_<id>.<type>`, the stem defaulting to "file". */
  function CopyName(input: Path, id: string): string {
    FileStem(input).GetOr("file") + "_" + id + "." + CopyType(input)
  }

  /** `copy_file`. */
  function CopyFile(fs: FileSystem, input: Path, outputDir: Path, id: string, io: Io): (r: Result<ProcessResult, string>)
    ensures r.Ok? ==> Metadata(fs, input) == Ok(r.value.originalSize) && r.value.processedSize == r.value.originalSize
    ensures r.Ok? ==> r.value.fileType == CopyType(input) && ReadFile(fs, input).Ok?
  {
    var outputPath := Join(outputDir, CopyName(input, id));
    match Metadata(fs, input)
    case Err(e) => Err("Failed to read file metadata: " + e)
    case Ok(originalSize) =>
      if ReadFile(fs, input).Err? then Err("Failed to copy file: " + ReadFile(fs, input).error)
      else if io.copy.FailsWith? then Err("Failed to copy file: " + io.copy.reason)
      else Ok(ProcessResult(outputPath, originalSize, originalSize, CopyType(input)))
  }

  datatype ZipEntry = ZipEntry(name: string, data: seq<byte>)

  const U64Modulus: nat := 0x1_0000_0000_0000_0000

  /** `a += b` on u64 in a release build, where overflow wraps. */
  function WrappingAdd(a: u64, b: nat): u64 {
    (a + b) % U64Modulus
  }

  /** The entries the archive should hold: one per input, in order, named by the input's file name. */
  function ZipEntries(fs: FileSystem, paths: seq<Path>): (r: seq<ZipEntry>)
    ensures |r| == |paths|
  {
    seq(|paths|, i requires 0 <= i < |paths| =>
      ZipEntry(NameOrFile(paths[i]), match ReadFile(fs, paths[i]) case Ok(b) => b case Err(_) => []))
  }

  /** Sum of the lengths of the readable inputs. */
  function SumLengths(fs: FileSystem, paths: seq<Path>): nat
    decreases |paths|
  {
    if paths == [] then 0
    else
      SumLengths(fs, paths[..|paths| - 1]) +
      (match ReadFile(fs, paths[|paths| - 1]) case Ok(b) => |b| case Err(_) => 0)
  }

  /** Writing the entries in order: the running u64 total of the bytes read, or the first failure. */
  function WriteEntries(fs: FileSystem, paths: seq<Path>, io: Io): (r: Result<u64, string>)
    ensures r.Ok? <==> forall j :: 0 <= j < |paths| ==> ReadFile(fs, paths[j]).Ok? && j !in io.entryFaults
    decreases |paths|
  {
    if paths == [] then Ok(0)
    else match WriteEntries(fs, paths[..|paths| - 1], io)
      case Err(e) => Err(e)
      case Ok(total) =>
        var i := |paths| - 1;
        match ReadFile(fs, paths[i])
        case Err(e) => Err("Failed to read file " + NameOrFile(paths[i]) + ": " + e)
        case Ok(data) =>
          if i in io.entryFaults then
            match io.entryFaults[i]
            case StartFails(e) => Err("Failed to start zip entry: " + e)
            case WriteFails(e) => Err("Failed to write to zip: " + e)
          else Ok(WrappingAdd(total, |data|))
  }

  function ArchiveName(id: string): string {
    "archive_" + id + ".zip"
  }

  /** `create_zip`, as a function. */
  function ArchiveResult(fs: FileSystem, paths: seq<Path>, outputDir: Path, id: string, io: Io): (r: Result<ProcessResult, string>)
    ensures r.Ok? <==>
      && io.createOutput.Succeeds? && io.finishZip.Succeeds? && io.outputSize.Ok?
      && forall j :: 0 <= j < |paths| ==> ReadFile(fs, paths[j]).Ok? && j !in io.entryFaults
    ensures r.Ok? ==> r.value.fileType == "zip" && r.value.outputPath == Join(outputDir, ArchiveName(id))
  {
    var outputPath := Join(outputDir, ArchiveName(id));
    if io.createOutput.FailsWith? then Err("Failed to create zip file: " + io.createOutput.reason)
    else match WriteEntries(fs, paths, io)
      case Err(e) => Err(e)
      case Ok(total) =>
        if io.finishZip.FailsWith? then Err("Failed to finish zip: " + io.finishZip.reason)
        else match io.outputSize
          case Err(e) => Err("Failed to read zip metadata: " + e)
          case Ok(size) => Ok(ProcessResult(outputPath, total, size, "zip"))
  }

  /** Once a prefix of the inputs fails to be written, the archive fails with that error. */
  lemma {:induction false} WriteEntriesOfPrefix(fs: FileSystem, paths: seq<Path>, io: Io, j: nat)
    requires j <= |paths| && WriteEntries(fs, paths[..j], io).Err?
    ensures WriteEntries(fs, paths, io) == WriteEntries(fs, paths[..j], io)
    decreases |paths|
  {
    if j < |paths| {
      var init := paths[..|paths| - 1];
      assert init[..j] == paths[..j];
      WriteEntriesOfPrefix(fs, init, io, j);
    } else {
      assert paths[..j] == paths;
    }
  }

  /**
   * The archive loop of `create_zip`. `archive` is what the zip writer holds: the entries
   * written in full, which on a failure are a prefix of the intended ones.
   */
  method CreateZip(fs: FileSystem, inputPaths: seq<Path>, outputDir: Path, id: string, io: Io)
    returns (r: Result<ProcessResult, string>, archive: seq<ZipEntry>)
    ensures r == ArchiveResult(fs, inputPaths, outputDir, id, io)
    ensures archive <= ZipEntries(fs, inputPaths)
    ensures r.Ok? ==> archive == ZipEntries(fs, inputPaths)
  {
    var outputPath := Join(outputDir, ArchiveName(id));
    archive := [];
    if io.createOutput.FailsWith? {
      return Err("Failed to create zip file: " + io.createOutput.reason), archive;
    }
    var totalOriginalSize: u64 := 0;
    for i := 0 to |inputPaths|
      invariant WriteEntries(fs, inputPaths[..i], io) == Ok(totalOriginalSize)
      invariant archive == ZipEntries(fs, inputPaths)[..i]
    {
      var path := inputPaths[i];
      assert inputPaths[..i + 1][..i] == inputPaths[..i];
      var fileName := NameOrFile(path);
      var fileData := ReadFile(fs, path);
      if fileData.Err? {
        WriteEntriesOfPrefix(fs, inputPaths, io, i + 1);
        return Err("Failed to read file " + fileName + ": " + fileData.error), archive;
      }
      totalOriginalSize := WrappingAdd(totalOriginalSize, |fileData.value|);
      if i in io.entryFaults {
        WriteEntriesOfPrefix(fs, inputPaths, io, i + 1);
        match io.entryFaults[i]
        case StartFails(e) => return Err("Failed to start zip entry: " + e), archive;
        case WriteFails(e) => return Err("Failed to write to zip: " + e), archive;
      }
      archive := archive + [ZipEntry(fileName, fileData.value)];
    }
    assert inputPaths[..|inputPaths|] == inputPaths;
    if io.finishZip.FailsWith? {
      return Err("Failed to finish zip: " + io.finishZip.reason), archive;
    }
    match io.outputSize
    case Err(e) =>
      return Err("Failed to read zip metadata: " + e), archive;
    case Ok(processedSize) =>
      return Ok(ProcessResult(outputPath, totalOriginalSize, processedSize, "zip")), archive;
  }

  /** `process_files`: validate, create the output directory, then pick the strategy. */
  function ProcessFiles(fs: FileSystem, paths: seq<Path>, outputDir: Path, id: string, io: Io, mb: u64 -> string)
    : (r: Result<ProcessResult, string>)
    ensures r.Ok? ==> Validate(fs, paths).Ok? && io.createDir.Succeeds?
    ensures r.Ok? && |paths| >= 2 ==> r.value.fileType == "zip"
    ensures r.Ok? && |paths| == 1 ==> r.value.fileType == (if IsImage(paths[0]) then "webp" else CopyType(paths[0]))
  {
    match Validate(fs, paths)
    case Err(e) => Err(Message(e.kind, mb))
    case Ok(_) =>
      if io.createDir.FailsWith? then Err("Failed to create output directory: " + io.createDir.reason)
      else if |paths| == 1 then
        if IsImage(paths[0]) && !IsWebp(paths[0]) then ConvertToWebp(fs, paths[0], outputDir, id, io)
        else CopyFile(fs, paths[0], outputDir, id, io)
      else ArchiveResult(fs, paths, outputDir, id, io)
  }

  // ---------------------------------------------------------------------------------------
  // Properties of processing
  // ---------------------------------------------------------------------------------------

  /** No extension is both an image to convert and WebP, so the `!is_webp` test never changes the choice. */
  lemma ImageIsNeverWebp(p: Path)
    ensures IsImage(p) ==> !IsWebp(p)
  {
  }

  /** A rejected selection yields validation's message, whatever the libraries would have done. */
  lemma RejectedSelection(fs: FileSystem, paths: seq<Path>, outputDir: Path, id: string, io: Io, mb: u64 -> string,
                          otherDir: Path, otherId: string, otherIo: Io)
    requires Validate(fs, paths).Err?
    ensures ProcessFiles(fs, paths, outputDir, id, io, mb) == Err(Message(Validate(fs, paths).error.kind, mb))
    ensures ProcessFiles(fs, paths, outputDir, id, io, mb) == ProcessFiles(fs, paths, otherDir, otherId, otherIo, mb)
  {
  }

  /** The strategy for an accepted selection: one image → WebP, one other file → copy, several → zip. */
  lemma Dispatch(fs: FileSystem, paths: seq<Path>, outputDir: Path, id: string, io: Io, mb: u64 -> string)
    requires Validate(fs, paths).Ok? && io.createDir.Succeeds?
    ensures |paths| == 1 && IsImage(paths[0]) ==>
      ProcessFiles(fs, paths, outputDir, id, io, mb) == ConvertToWebp(fs, paths[0], outputDir, id, io)
    ensures |paths| == 1 && !IsImage(paths[0]) ==>
      ProcessFiles(fs, paths, outputDir, id, io, mb) == CopyFile(fs, paths[0], outputDir, id, io)
    ensures |paths| >= 2 ==>
      ProcessFiles(fs, paths, outputDir, id, io, mb) == ArchiveResult(fs, paths, outputDir, id, io)
  {
    ValidIff(fs, paths);
    if |paths| == 1 {
      ImageIsNeverWebp(paths[0]);
    }
  }

  /** An extension holds no '.', and lower-casing keeps it so. */
  lemma LowerKeepsNoDot(e: string)
    requires '.' !in e && '/' !in e
    ensures '.' !in Lower(e) && '/' !in Lower(e)
  {
    LowerAvoids(e, '.');
    LowerAvoids(e, '/');
  }

  /** A name `<stem>_<id>.<ext>` built from a file stem is a normal file name with that stem and extension. */
  lemma BuiltNameSplits(stem: string, id: string, ext: string)
    requires stem != [] && '/' !in stem && '/' !in id && '/' !in ext && '.' !in ext
    ensures IsNormalName(stem + "_" + id + "." + ext)
    ensures StemOf(stem + "_" + id + "." + ext) == stem + "_" + id
    ensures ExtensionOf(stem + "_" + id + "." + ext) == Some(ext)
  {
    var n := stem + "_" + id + "." + ext;
    assert n == (stem + "_" + id) + "." + ext;
    assert n[|stem|] == '_';
    SplitOfBuiltName(stem + "_" + id, ext);
  }

  /** A stem from a path is a non-empty text without separators. */
  lemma StemShape(p: Path)
    requires FileStem(p).Some?
    ensures FileStem(p).value != [] && '/' !in FileStem(p).value
  {
    var n := FileName(p).value;
    NameSplit(n);
    if ExtensionOf(n).Some? {
      assert n == StemOf(n) + "." + ExtensionOf(n).value;
      assert forall x :: x in StemOf(n) ==> x in n;
    }
  }

  /** `convert_to_webp` succeeds with a "webp" artifact named `<stem>_<id>.webp`, sized as read back. */
  lemma WebpOutcome(fs: FileSystem, input: Path, outputDir: Path, id: string, io: Io)
    requires '/' !in id
    ensures ConvertToWebp(fs, input, outputDir, id, io).Ok? <==>
      Metadata(fs, input).Ok? && ReadFile(fs, input).Ok? && io.decodeImage.Succeeds? && io.createOutput.Succeeds? &&
      io.encodeWebp.Succeeds? && io.flush.Succeeds? && io.outputSize.Ok?
    ensures ConvertToWebp(fs, input, outputDir, id, io).Ok? ==>
      var res := ConvertToWebp(fs, input, outputDir, id, io).value;
      && res.fileType == "webp"
      && res.originalSize == Metadata(fs, input).value
      && res.processedSize == io.outputSize.value
      && FileName(res.outputPath) == Some(FileStem(input).GetOr("image") + "_" + id + ".webp")
      && Extension(res.outputPath) == Some("webp")
  {
    if ConvertToWebp(fs, input, outputDir, id, io).Ok? {
      var res := ConvertToWebp(fs, input, outputDir, id, io).value;
      assert res.outputPath == Join(outputDir, WebpName(input, id));
      WebpNameShape(input, id);
      JoinFileName(outputDir, WebpName(input, id));
    }
  }

  /** The WebP output name is a normal file name whose extension is "webp". */
  lemma WebpNameShape(input: Path, id: string)
    requires '/' !in id
    ensures IsNormalName(WebpName(input, id)) && ExtensionOf(WebpName(input, id)) == Some("webp")
  {
    var stem := FileStem(input).GetOr("image");
    if FileStem(input).Some? {
      StemShape(input);
    }
    BuiltNameSplits(stem, id, "webp");
    assert WebpName(input, id) == stem + "_" + id + "." + "webp";
  }

  /** `copy_file` succeeds with an artifact as large as its source, tagged and named by the lower-cased extension. */
  lemma CopyOutcome(fs: FileSystem, input: Path, outputDir: Path, id: string, io: Io)
    requires '/' !in id
    ensures CopyFile(fs, input, outputDir, id, io).Ok? <==>
      Metadata(fs, input).Ok? && ReadFile(fs, input).Ok? && io.copy.Succeeds?
    ensures CopyFile(fs, input, outputDir, id, io).Ok? ==>
      var res := CopyFile(fs, input, outputDir, id, io).value;
      && res.processedSize == res.originalSize == Metadata(fs, input).value
      && res.fileType == (if Extension(input).Some? then Lower(Extension(input).value) else "bin")
      && FileName(res.outputPath) == Some(FileStem(input).GetOr("file") + "_" + id + "." + res.fileType)
      && Extension(res.outputPath) == Some(res.fileType)
  {
    var stem := FileStem(input).GetOr("file");
    if FileStem(input).Some? {
      StemShape(input);
    }
    if Extension(input).Some? {
      NameSplit(FileName(input).value);
      assert forall x :: x in Extension(input).value ==> x in FileName(input).value;
      LowerKeepsNoDot(Extension(input).value);
    } else {
      LowerKeepsNoDot("bin");
      assert Lower("bin") == "bin";
    }
    BuiltNameSplits(stem, id, CopyType(input));
    JoinFileName(outputDir, CopyName(input, id));
  }

  /** The total of WriteEntries is the inputs' byte count modulo 2^64, and its success means every input was read. */
  lemma {:induction false} WriteEntriesTotal(fs: FileSystem, paths: seq<Path>, io: Io)
    requires WriteEntries(fs, paths, io).Ok?
    ensures WriteEntries(fs, paths, io).value == SumLengths(fs, paths) % U64Modulus
    ensures forall j :: 0 <= j < |paths| ==> ReadFile(fs, paths[j]).Ok?
    decreases |paths|
  {
    if paths != [] {
      var init := paths[..|paths| - 1];
      WriteEntriesTotal(fs, init, io);
      var t := SumLengths(fs, init);
      var n := |ReadFile(fs, paths[|paths| - 1]).value|;
      ModAdd(t, n);
      assert forall j :: 0 <= j < |init| ==> init[j] == paths[j];
    }
  }

  lemma ModAdd(a: nat, b: nat)
    ensures (a % U64Modulus + b) % U64Modulus == (a + b) % U64Modulus
  {
    var q := a / U64Modulus;
    assert a == q * U64Modulus + a % U64Modulus;
    LinearMod(a % U64Modulus + b, q);
  }

  lemma LinearMod(x: nat, q: nat)
    ensures (x + q * U64Modulus) % U64Modulus == x % U64Modulus
  {
    if q > 0 {
      LinearMod(x, q - 1);
      assert x + q * U64Modulus == (x + (q - 1) * U64Modulus) + U64Modulus;
    }
  }

  /**
   * `create_zip` succeeds with a "zip" artifact named `archive_<id>.zip`, whose original size is
   * the inputs' byte count (modulo 2^64, as the u64 accumulator wraps).
   */
  lemma ArchiveOutcome(fs: FileSystem, paths: seq<Path>, outputDir: Path, id: string, io: Io)
    requires '/' !in id
    ensures ArchiveResult(fs, paths, outputDir, id, io).Ok? ==>
      var res := ArchiveResult(fs, paths, outputDir, id, io).value;
      && res.fileType == "zip"
      && res.originalSize == SumLengths(fs, paths) % U64Modulus
      && res.processedSize == io.outputSize.value
      && (forall j :: 0 <= j < |paths| ==> ReadFile(fs, paths[j]).Ok?)
      && FileName(res.outputPath) == Some("archive_" + id + ".zip")
      && Extension(res.outputPath) == Some("zip")
  {
    if ArchiveResult(fs, paths, outputDir, id, io).Ok? {
      WriteEntriesTotal(fs, paths, io);
      BuiltNameSplits("archive", id, "zip");
      assert "archive" + "_" + id + "." + "zip" == ArchiveName(id);
      JoinFileName(outputDir, ArchiveName(id));
    }
  }

  /** On a consistent file system the bytes read are the validated sizes. */
  lemma {:induction false} SumLengthsIsTotalSize(fs: FileSystem, paths: seq<Path>)
    requires Consistent(fs)
    requires forall j :: 0 <= j < |paths| ==> CheckFile(fs, paths[j]).Ok? && ReadFile(fs, paths[j]).Ok?
    ensures SumLengths(fs, paths) == TotalSize(fs, paths)
    decreases |paths|
  {
    if paths != [] {
      var init := paths[..|paths| - 1];
      assert forall j :: 0 <= j < |init| ==> init[j] == paths[j];
      SumLengthsIsTotalSize(fs, init);
      CheckOrder(fs, paths[|paths| - 1]);
    }
  }

  /** After validation the zip accumulator never wraps: the archive's original size is the exact validated total, at most 1 GiB. */
  lemma ArchiveSizeIsExact(fs: FileSystem, paths: seq<Path>, outputDir: Path, id: string, io: Io)
    requires Consistent(fs) && Validate(fs, paths).Ok?
    requires ArchiveResult(fs, paths, outputDir, id, io).Ok?
    ensures ArchiveResult(fs, paths, outputDir, id, io).value.originalSize == SumLengths(fs, paths)
    ensures SumLengths(fs, paths) == TotalSize(fs, paths) <= MaxTotalSize
  {
    var written := WriteEntries(fs, paths, io);
    assert written.Ok? && ArchiveResult(fs, paths, outputDir, id, io).value.originalSize == written.value;
    WriteEntriesTotal(fs, paths, io);
    ValidIff(fs, paths);
    SumLengthsIsTotalSize(fs, paths);
  }

  /** Every artifact's extension is its type tag, and the tag is "webp", "zip" or the copied file's. */
  lemma ArtifactExtensionIsType(fs: FileSystem, paths: seq<Path>, outputDir: Path, id: string, io: Io, mb: u64 -> string)
    requires '/' !in id
    requires ProcessFiles(fs, paths, outputDir, id, io, mb).Ok?
    ensures Extension(ProcessFiles(fs, paths, outputDir, id, io, mb).value.outputPath) ==
      Some(ProcessFiles(fs, paths, outputDir, id, io, mb).value.fileType)
    ensures ProcessFiles(fs, paths, outputDir, id, io, mb).value.fileType ==
      if |paths| >= 2 then "zip" else if IsImage(paths[0]) then "webp" else CopyType(paths[0])
  {
    Dispatch(fs, paths, outputDir, id, io, mb);
    ValidIff(fs, paths);
    if |paths| >= 2 {
      ArchiveOutcome(fs, paths, outputDir, id, io);
    } else if IsImage(paths[0]) {
      WebpOutcome(fs, paths[0], outputDir, id, io);
    } else {
      CopyOutcome(fs, paths[0], outputDir, id, io);
    }
  }
}
