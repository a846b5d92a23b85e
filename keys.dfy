/** Object keys, content types and public URLs of uploaded files. */
module ObjectKeys {
  import opened Common
  import opened Text
  import opened Paths

  const OctetStream := "application/octet-stream"

  predicate IsAsciiAlphanumeric(c: char) {
    'a' <= c <= 'z' || 'A' <= c <= 'Z' || '0' <= c <= '9'
  }

  /** A character the sanitiser keeps. */
  predicate IsSafeChar(c: char) {
    IsAsciiAlphanumeric(c) || c == '-' || c == '_'
  }

  predicate IsSafeName(s: string) {
    forall i :: 0 <= i < |s| ==> IsSafeChar(s[i])
  }

  /** The sanitised stem: kept characters stay in place, every other one becomes '_', so only kept ones remain. */
  function SanitizeName(s: string): (r: string)
    ensures |r| == |s|
    ensures IsSafeName(r)
    ensures forall i :: 0 <= i < |s| && IsSafeChar(s[i]) ==> r[i] == s[i]
    ensures forall i :: 0 <= i < |s| && !IsSafeChar(s[i]) ==> r[i] == '_'
  {
    seq(|s|, i requires 0 <= i < |s| => if IsSafeChar(s[i]) then s[i] else '_')
  }

  /** The names sanitising leaves unchanged are exactly the safe ones. */
  lemma SanitizeFixesSafeNames(s: string)
    ensures SanitizeName(s) == s <==> IsSafeName(s)
  {
    if SanitizeName(s) != s {
      var i :| 0 <= i < |s| && SanitizeName(s)[i] != s[i];
      assert !IsSafeChar(s[i]);
    }
  }

  lemma SanitizeIsIdempotent(s: string)
    ensures SanitizeName(SanitizeName(s)) == SanitizeName(s)
  {
    SanitizeFixesSafeNames(SanitizeName(s));
  }

  /** The raw extension of the uploaded file, not lower-cased, defaulting to "bin". */
  function UploadExtension(p: Path): string {
    Extension(p).GetOr("bin")
  }

  function UploadStem(p: Path): string {
    FileStem(p).GetOr("file")
  }

  /** The directory every uploaded object is placed in. */
  const KeyDirectory := "u"

  /** `u/<id>_<safe stem>.<ext>`. */
  function ObjectKey(id: string, p: Path): (r: string)
    ensures |r| > 2 + |id| && r[..2] == "u/" && r[2..2 + |id|] == id && r[2 + |id|] == '_'
    ensures '/' !in r[2 + |id|..]
  {
    var safe := SanitizeName(UploadStem(p));
    var ext := UploadExtension(p);
    var name := id + "_" + safe + "." + ext;
    assert name[..|id|] == id && name[|id|] == '_';
    KeyStart(id, name);
    SanitizedHasNoDotOrSlash(UploadStem(p));
    UploadExtensionShape(p);
    assert name[|id|..] == "_" + safe + "." + ext;
    assert forall x :: x in name[|id|..] ==> x == '_' || x in safe || x == '.' || x in ext;
    KeyDirectory + "/" + name
  }

  const KnownExtensions: seq<string> := ["webp", "jpg", "jpeg", "png", "gif", "pdf", "zip", "mp4", "mov"]

  /**
   * The MIME type sent for an extension. The lookup is case-sensitive: only the nine listed
   * extensions, spelt exactly so, get a specific type.
   */
  function ContentType(ext: string): (r: string)
    ensures r != OctetStream <==> ext in KnownExtensions
    ensures ext == "jpg" || ext == "jpeg" ==> r == "image/jpeg"
  {
    match ext
    case "webp" => "image/webp"
    case "jpg" => "image/jpeg"
    case "jpeg" => "image/jpeg"
    case "png" => "image/png"
    case "gif" => "image/gif"
    case "pdf" => "application/pdf"
    case "zip" => "application/zip"
    case "mp4" => "video/mp4"
    case "mov" => "video/quicktime"
    case _ => OctetStream
  }

  /** `str::trim_end_matches('/')`. */
  function TrimTrailingSlashes(s: string): (r: string)
    ensures |r| <= |s| && s[..|r|] == r
    ensures r == [] || r[|r| - 1] != '/'
    ensures forall i :: |r| <= i < |s| ==> s[i] == '/'
  {
    if s != [] && s[|s| - 1] == '/' then TrimTrailingSlashes(s[..|s| - 1]) else s
  }

  /** The URL ends in '/' and the key, with no second '/' before that one, and begins with a prefix of the base. */
  function PublicUrl(base: string, key: string): (r: string)
    ensures |r| > |key| && r[|r| - |key|..] == key && r[|r| - |key| - 1] == '/'
    ensures |r| > |key| + 1 ==> r[|r| - |key| - 2] != '/'
    ensures |r| - |key| - 1 <= |base| && r[..|r| - |key| - 1] == base[..|r| - |key| - 1]
  {
    TrimTrailingSlashes(base) + "/" + key
  }

  /** The URL joins the base, stripped of every trailing '/', to the key with exactly one '/'; extra slashes on the base change nothing. */
  lemma PublicUrlJoin(base: string, key: string)
    ensures var t := TrimTrailingSlashes(base);
      && PublicUrl(base, key) == t + "/" + key
      && (t == [] || t[|t| - 1] != '/')
      && base == t + base[|t|..]
      && (forall i :: 0 <= i < |base| - |t| ==> base[|t|..][i] == '/')
    ensures PublicUrl(base + "/", key) == PublicUrl(base, key)
  {
    var t := TrimTrailingSlashes(base);
    assert (base + "/")[..|base|] == base;
    assert TrimTrailingSlashes(base + "/") == t;
    assert base == t + base[|t|..];
  }

  /** A sanitised name holds neither '.' nor '/'. */
  lemma SanitizedHasNoDotOrSlash(s: string)
    ensures '.' !in SanitizeName(s) && '/' !in SanitizeName(s)
  {
    var r := SanitizeName(s);
    assert forall i :: 0 <= i < |r| ==> IsSafeChar(r[i]);
  }

  /** The last component of a key, `<id>_<safe>.<ext>`, splits back into `<id>_<safe>` and `<ext>`. */
  lemma KeyNameSplits(stem: string, ext: string)
    requires '/' !in stem && '_' in stem && '.' !in ext && '/' !in ext
    ensures IsNormalName(stem + "." + ext)
    ensures StemOf(stem + "." + ext) == stem
    ensures ExtensionOf(stem + "." + ext) == Some(ext)
  {
    var name := stem + "." + ext;
    assert forall i :: 0 <= i < |name| ==> name[i] in stem || name[i] == '.' || name[i] in ext;
    assert '_' in name;
    SplitOfBuiltName(stem, ext);
  }

  /** The raw extension of a path holds neither '.' nor '/'. */
  lemma UploadExtensionShape(p: Path)
    ensures '.' !in UploadExtension(p) && '/' !in UploadExtension(p)
  {
    if Extension(p).Some? {
      NameSplit(FileName(p).value);
      assert forall x :: x in Extension(p).value ==> x in FileName(p).value;
    }
  }

  /** The stem of a key's last component, `<id>_<safe stem>`, holds no '/'. */
  lemma KeyStemShape(id: string, p: Path)
    requires '/' !in id
    ensures var stem := id + "_" + SanitizeName(UploadStem(p));
      '_' in stem && '/' !in stem
  {
    var safe := SanitizeName(UploadStem(p));
    SanitizedHasNoDotOrSlash(UploadStem(p));
    var stem := id + "_" + safe;
    assert forall i :: 0 <= i < |stem| ==> stem[i] in id || stem[i] == '_' || stem[i] in safe;
    assert stem[|id|] == '_';
  }

  /** The last component of the key of `p`, and how it splits. */
  lemma KeyName(id: string, p: Path)
    requires '/' !in id
    ensures var name := id + "_" + SanitizeName(UploadStem(p)) + "." + UploadExtension(p);
      && IsNormalName(name)
      && StemOf(name) == id + "_" + SanitizeName(UploadStem(p))
      && ExtensionOf(name) == Some(UploadExtension(p))
  {
    KeyStemShape(id, p);
    UploadExtensionShape(p);
    KeyNameSplits(id + "_" + SanitizeName(UploadStem(p)), UploadExtension(p));
  }

  /**
   * Layout of the key: "u/", the id, '_', and a last component whose stem is
   * `<id>_<safe stem>` and whose extension is the file's raw extension.
   */
  lemma ObjectKeyLayout(id: string, p: Path)
    requires '/' !in id
    ensures var key := ObjectKey(id, p);
      && key[..2] == "u/" && key[2..2 + |id|] == id && key[2 + |id|] == '_'
      && FileName(key) == Some(key[2..])
      && FileStem(key) == Some(id + "_" + SanitizeName(UploadStem(p)))
      && Extension(key) == Some(UploadExtension(p))
  {
    var name := id + "_" + SanitizeName(UploadStem(p)) + "." + UploadExtension(p);
    assert name[..|id|] == id && name[|id|] == '_';
    assert ObjectKey(id, p) == KeyDirectory + "/" + name;
    KeyStart(id, name);
    KeyName(id, p);
    KeyDirectoryFileName(name);
  }

  /** A key `u/<name>` with `name` starting `<id>_` begins "u/", the id and '_'. */
  lemma KeyStart(id: string, name: string)
    requires |name| > |id| && name[..|id|] == id && name[|id|] == '_'
    ensures var key := KeyDirectory + "/" + name;
      key[..2] == "u/" && key[2..2 + |id|] == id && key[2 + |id|] == '_' && key[2..] == name
  {
    var key := KeyDirectory + "/" + name;
    assert key[2..] == name;
    assert key[2..2 + |id|] == name[..|id|];
  }

  /** A normal name placed in the key directory is the last component of the result. */
  lemma KeyDirectoryFileName(name: string)
    requires IsNormalName(name)
    ensures FileName(KeyDirectory + "/" + name) == Some(name)
  {
    JoinFileName(KeyDirectory, name);
    assert Join(KeyDirectory, name) == KeyDirectory + "/" + name;
  }
}
