/**
 The part of `std::path` the downloader uses, for `/`-separated paths: the
 final segment (`file_name`), its split at the last dot (`file_stem` and
 `extension`), the directory part and `join`.
 */
module Paths {
  import opened Wrappers
  import opened Text

  /** Everything up to and including the last `/`; empty when there is none. */
  function Parent(path: string): (r: string)
    ensures |r| <= |path| && path[..|r|] == r
    ensures '/' !in path[|r|..]
    ensures r == "" || r[|r| - 1] == '/'
  {
    match LastIndexOf(path, '/')
    case None => ""
    case Some(k) => path[..k + 1]
  }

  /** The final segment of a path; `""`, `"."` and `".."` name no file. */
  function FileName(path: string): (r: Option<string>)
    ensures r.Some? ==> path == Parent(path) + r.value
    ensures r.Some? ==> '/' !in r.value && r.value !in {"", ".", ".."}
  {
    var seg := path[|Parent(path)|..];
    assert path == Parent(path) + seg;
    if seg in {"", ".", ".."} then None else Some(seg)
  }

  /**
   Splits a file name at its last dot: the text before it and the text
   after it, unless there is no dot or the only place for one is the very
   start, in which case the whole name is the stem and there is no extension.
   */
  function SplitAtDot(name: string): (r: (string, Option<string>))
    ensures r.1.None? ==> r.0 == name
    ensures r.1.None? ==> forall k :: 0 < k < |name| ==> name[k] != '.'
    ensures r.1.Some? ==> name == r.0 + "." + r.1.value
    ensures r.1.Some? ==> r.0 != "" && '.' !in r.1.value
  {
    match LastIndexOf(name, '.')
    case None => (name, None)
    case Some(k) =>
      if k == 0 then (name, None)
      else
        assert name == name[..k] + "." + name[k + 1..];
        (name[..k], Some(name[k + 1..]))
  }

  /** Splitting `stem.ext` at its last dot recovers `stem` and `ext`. */
  lemma SplitAtDotOf(stem: string, ext: string)
    requires stem != "" && '.' !in ext
    ensures SplitAtDot(stem + "." + ext) == (stem, Some(ext))
  {
    var name := stem + "." + ext;
    assert name[|stem|] == '.';
    assert name[|stem| + 1..] == ext;
    assert name[..|stem|] == stem;
  }

  /**
   `Path::file_stem`: the final segment without its extension; the whole
   segment when it has none.
   */
  function Stem(path: string): (r: Option<string>)
    ensures r.Some? <==> FileName(path).Some?
    ensures r.Some? ==> r.value != ""
    ensures Extension(path).Some? ==> r.Some? && FileName(path).value == r.value + "." + Extension(path).value
    ensures Extension(path).None? && r.Some? ==> r.value == FileName(path).value
  {
    match FileName(path)
    case None => None
    case Some(name) => Some(SplitAtDot(name).0)
  }

  /** `Path::extension`: the dot-free text after the final segment's last dot. */
  function Extension(path: string): (r: Option<string>)
    ensures r.Some? ==> FileName(path).Some? && '.' !in r.value
    ensures FileName(path).Some? && r.None? ==>
      forall k :: 0 < k < |FileName(path).value| ==> FileName(path).value[k] != '.'
  {
    match FileName(path)
    case None => None
    case Some(name) => SplitAtDot(name).1
  }

  /** A directory prefix keeps its role when a plain name is appended. */
  lemma ParentOfAppend(p: string, name: string)
    requires p == "" || p[|p| - 1] == '/'
    requires '/' !in name
    ensures Parent(p + name) == p
  {
    var s := p + name;
    assert s[..|p|] == p;
    assert forall k :: |p| <= k < |s| ==> s[k] == name[k - |p|];
    if p == "" {
      assert s == name;
    } else {
      assert s[|p| - 1] == '/';
      var k := LastIndexOf(s, '/').value;
      assert k == |p| - 1;
    }
  }

  /** `Path::join` of a name onto a directory (an absolute name replaces it). */
  function Join(dir: string, name: string): (r: string)
    ensures |name| > 0 && name[0] == '/' ==> r == name
    ensures !(|name| > 0 && name[0] == '/') ==>
      |dir| + |name| <= |r| && r[..|dir|] == dir && r[|r| - |name|..] == name
      && (r == dir + name || r == dir + "/" + name)
    ensures !(|name| > 0 && name[0] == '/') ==> (r == dir + name <==> dir == "" || dir[|dir| - 1] == '/')
  {
    if |name| > 0 && name[0] == '/' then name
    else if dir == "" || dir[|dir| - 1] == '/' then dir + name
    else dir + "/" + name
  }

  /** The final segment of `dir/name` is `name` when `name` is a plain name. */
  lemma FileNameUnder(dir: string, name: string)
    requires '/' !in name && name !in {"", ".", ".."}
    ensures FileName(dir + "/" + name) == Some(name)
  {
    assert dir + "/" + name == (dir + "/") + name;
    ParentOfAppend(dir + "/", name);
  }

  /** A plain name joined onto a directory is that path's final segment. */
  lemma FileNameOfJoin(dir: string, name: string)
    requires '/' !in name && name !in {"", ".", ".."}
    ensures FileName(Join(dir, name)) == Some(name)
  {
    var d := if dir == "" || dir[|dir| - 1] == '/' then dir else dir + "/";
    assert Join(dir, name) == d + name;
    ParentOfAppend(d, name);
  }
}
