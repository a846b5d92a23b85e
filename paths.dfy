/**
 * Paths as '/'-separated strings, with the meaning Rust's `std::path` gives to
 * `file_name`, `file_stem`, `extension` and `join` on Unix.
 */
module Paths {
  import opened Common

  type Path = string

  /** A name that `file_name` can return: one normal path component. */
  predicate IsNormalName(n: string) {
    n != [] && '/' !in n && n != "." && n != ".."
  }

  /** Index just after the last '/' of `s`, or 0 when there is none. */
  function SegmentStart(s: string): (k: nat)
    ensures k <= |s|
    ensures '/' !in s[k..]
    ensures k > 0 ==> s[k - 1] == '/'
  {
    if s == [] then 0
    else if s[|s| - 1] == '/' then |s|
    else SegmentStart(s[..|s| - 1])
  }

  /**
   * `Path::file_name`: the last component, after trailing separators and `.` components are
   * dropped; none when that component is `..` or there is no component at all.
   */
  function FileName(p: Path): (r: Option<string>)
    ensures r.Some? ==> IsNormalName(r.value)
    decreases |p|
  {
    if p == [] then None
    else if p[|p| - 1] == '/' then FileName(p[..|p| - 1])
    else
      var k := SegmentStart(p);
      var last := p[k..];
      if last == "." then FileName(p[..k])
      else if last == ".." then None
      else Some(last)
  }

  /** Position of the last occurrence of `c` in `s`. */
  function LastIndex(s: string, c: char): (r: Option<nat>)
    ensures r.Some? ==> r.value < |s| && s[r.value] == c && c !in s[r.value + 1..]
    ensures r.None? ==> c !in s
  {
    if s == [] then None
    else if s[|s| - 1] == c then Some(|s| - 1)
    else LastIndex(s[..|s| - 1], c)
  }

  /** The stem of a file name: everything before its last '.', unless that '.' is the first character. */
  function StemOf(name: string): string {
    match LastIndex(name, '.')
    case Some(i) => if i == 0 then name else name[..i]
    case None => name
  }

  /** The extension of a file name: everything after its last '.', unless that '.' is the first character. */
  function ExtensionOf(name: string): Option<string> {
    match LastIndex(name, '.')
    case Some(i) => if i == 0 then None else Some(name[i + 1..])
    case None => None
  }

  /** `Path::file_stem`. */
  function FileStem(p: Path): Option<string> {
    match FileName(p)
    case Some(n) => Some(StemOf(n))
    case None => None
  }

  /** `Path::extension`. */
  function Extension(p: Path): Option<string> {
    match FileName(p)
    case Some(n) => ExtensionOf(n)
    case None => None
  }

  /** `Path::join`: a separator is inserted unless `dir` is empty or already ends in one; an absolute name replaces `dir`. */
  function Join(dir: Path, name: string): Path {
    if |name| > 0 && name[0] == '/' then name
    else if dir == [] || dir[|dir| - 1] == '/' then dir + name
    else dir + "/" + name
  }

  /** A file name splits into stem and extension and is rebuilt from them; the extension holds no '.', the stem is never empty. */
  lemma NameSplit(name: string)
    requires IsNormalName(name)
    ensures StemOf(name) != []
    ensures ExtensionOf(name).None? ==> StemOf(name) == name
    ensures ExtensionOf(name).Some? ==>
      '.' !in ExtensionOf(name).value && name == StemOf(name) + "." + ExtensionOf(name).value
  {
    match LastIndex(name, '.')
    case Some(i) =>
      if i > 0 {
        assert name == name[..i] + "." + name[i + 1..];
      }
    case None =>
  }

  /** The last `c` of `s + [c] + t` is the one after `s` when `t` holds no `c`. */
  lemma {:induction false} LastIndexAfter(s: string, c: char, t: string)
    requires c !in t
    ensures LastIndex(s + [c] + t, c) == Some(|s|)
    decreases |t|
  {
    var n := s + [c] + t;
    if t != [] {
      assert n[..|n| - 1] == s + [c] + t[..|t| - 1];
      assert n[|n| - 1] == t[|t| - 1] && t[|t| - 1] in t;
      LastIndexAfter(s, c, t[..|t| - 1]);
    } else {
      assert n[|n| - 1] == c;
    }
  }

  /** The split inverts building a name as `stem + "." + ext` from a non-empty stem and an extension without '.'. */
  lemma SplitOfBuiltName(stem: string, ext: string)
    requires stem != [] && '.' !in ext
    ensures StemOf(stem + "." + ext) == stem
    ensures ExtensionOf(stem + "." + ext) == Some(ext)
  {
    var n := stem + "." + ext;
    LastIndexAfter(stem, '.', ext);
    assert n[..|stem|] == stem;
    assert n[|stem| + 1..] == ext;
  }

  /** The start of the last segment of `a + b`, when `a` ends at a separator and `b` holds none. */
  lemma {:induction false} SegmentStartAfterSeparator(a: string, b: string)
    requires a == [] || a[|a| - 1] == '/'
    requires '/' !in b
    ensures SegmentStart(a + b) == |a|
    decreases |b|
  {
    if b == [] {
      assert a + b == a;
      if a != [] {
        assert a[..|a| - 1] + [a[|a| - 1]] == a;
      }
    } else {
      var ab := a + b;
      assert ab[..|ab| - 1] == a + b[..|b| - 1];
      assert ab[|ab| - 1] == b[|b| - 1] && b[|b| - 1] in b;
      SegmentStartAfterSeparator(a, b[..|b| - 1]);
    }
  }

  /** Joining a normal name onto a directory yields a path whose file name is that name. */
  lemma JoinFileName(dir: Path, name: string)
    requires IsNormalName(name)
    ensures FileName(Join(dir, name)) == Some(name)
  {
    var j := Join(dir, name);
    var a := if dir == [] || dir[|dir| - 1] == '/' then dir else dir + "/";
    assert j == a + name;
    assert name[0] in name;
    SegmentStartAfterSeparator(a, name);
    assert j[|j| - 1] == name[|name| - 1] && name[|name| - 1] in name;
    assert j[|a|..] == name;
  }
}
