/** The parts of `std::path::Path` the commands use, for Unix paths: the
    last component, its extension and its stem. */
module Paths {
  import opened Prelude
  import opened Text

  /** The last piece that is a component: empty pieces (from repeated or
      trailing slashes) and `.` pieces are not components. */
  function LastComponent(pieces: seq<string>): (r: Option<string>)
    ensures r.Some? ==> r.value != "" && r.value != "." && r.value in pieces
    ensures r.Some? ==> exists k :: 0 <= k < |pieces| && pieces[k] == r.value && NoComponentAfter(pieces, k)
    ensures r.None? <==> NoComponentAfter(pieces, -1)
  {
    if |pieces| == 0 then None
    else
      var front, last := pieces[..|pieces| - 1], pieces[|pieces| - 1];
      if last == "" || last == "." then
        var r := LastComponent(front);
        if r.Some? then
          var k :| 0 <= k < |front| && front[k] == r.value && NoComponentAfter(front, k);
          assert pieces[k] == r.value && NoComponentAfter(pieces, k);
          r
        else
          assert NoComponentAfter(pieces, -1);
          r
      else
        assert NoComponentAfter(pieces, |pieces| - 1);
        Some(last)
  }

  /** Every piece after index `k` is empty or `.`. */
  predicate NoComponentAfter(pieces: seq<string>, k: int) {
    forall j :: 0 <= j < |pieces| && k < j ==> pieces[j] == "" || pieces[j] == "."
  }

  /** `Path::file_name`: the last component, unless it is `..` or there is
      none (the root, an empty path, `.`). */
  function FileName(p: string): (r: Option<string>)
    ensures r.Some? ==> '/' !in r.value && r.value != "" && r.value != "." && r.value != ".."
  {
    match LastComponent(Split(p, '/'))
    case None => None
    case Some(c) => if c == ".." then None else Some(c)
  }

  /** An empty or `.` piece at the end does not change the last component. */
  lemma LastComponentPadded(pieces: seq<string>, x: string)
    requires x == "" || x == "."
    ensures LastComponent(pieces + [x]) == LastComponent(pieces)
  {
    assert (pieces + [x])[..|pieces|] == pieces;
  }

  /** A trailing `/` or `/.` does not change the file name: `a/b/` and
      `a/b/.` name `b`, and `/` names nothing, like the empty path. */
  lemma TrailingSlash(p: string, x: string)
    requires x == "" || x == "."
    ensures FileName(p + "/" + x) == FileName(p)
  {
    SplitConcat(p, '/', x);
    assert p + "/" + x == p + ['/'] + x;
    SplitAbsent(x, '/');
    LastComponentPadded(Split(p, '/'), x);
  }

  /** Offset of the last occurrence of `c`. */
  function LastIndexOf(s: string, c: char): (r: Option<nat>)
    ensures r.Some? ==> r.value < |s| && s[r.value] == c && c !in s[r.value + 1..]
    ensures r.None? ==> c !in s
  {
    if |s| == 0 then None
    else if s[|s| - 1] == c then Some(|s| - 1)
    else
      var r := LastIndexOf(s[..|s| - 1], c);
      if r.Some? then
        assert s[r.value + 1..] == s[..|s| - 1][r.value + 1..] + [s[|s| - 1]];
        r
      else
        assert s == s[..|s| - 1] + [s[|s| - 1]];
        r
  }

  /** Where a file name splits into stem and extension: at its last dot,
      unless that dot is the first character (a hidden file such as
      `.bashrc`) or there is none. */
  function ExtensionDot(name: string): (r: Option<nat>)
    ensures r.Some? ==> 0 < r.value < |name| && name[r.value] == '.' && '.' !in name[r.value + 1..]
  {
    match LastIndexOf(name, '.')
    case None => None
    case Some(d) => if d == 0 then None else Some(d)
  }

  /** `Path::extension`: the text after the splitting dot. */
  function Extension(p: string): (r: Option<string>)
    ensures r.Some? ==> '.' !in r.value && '/' !in r.value
  {
    match FileName(p)
    case None => None
    case Some(name) =>
      match ExtensionDot(name)
      case None => None
      case Some(d) =>
        assert forall i :: d + 1 <= i < |name| ==> name[i] == name[d + 1..][i - d - 1];
        Some(name[d + 1..])
  }

  /** `Path::file_stem`: the text before the splitting dot, or the whole
      file name when there is no extension. */
  function FileStem(p: string): (r: Option<string>)
    ensures r.Some? <==> FileName(p).Some?
    ensures r.Some? ==> r.value != ""
  {
    match FileName(p)
    case None => None
    case Some(name) =>
      match ExtensionDot(name)
      case None => Some(name)
      case Some(d) => Some(name[..d])
  }

  /** Stem, dot and extension spell the file name back. */
  lemma StemDotExtension(p: string)
    requires Extension(p).Some?
    ensures FileName(p) == Some(FileStem(p).value + "." + Extension(p).value)
  {
    var name := FileName(p).value;
    var d := ExtensionDot(name).value;
    assert name == name[..d] + "." + name[d + 1..];
  }

  /** Splitting `dir + "/" + name` ends with the pieces of `name`. */
  lemma {:induction false} SplitLastPiece(dir: string, name: string)
    requires '/' !in name
    ensures Last(Split(dir + "/" + name, '/')) == name
    decreases |dir|
  {
    var s := dir + "/" + name;
    FindChar(dir, '/');
    if '/' in dir {
      var i := Find(dir, ['/']).value;
      assert s[..i] == dir[..i];
      FindCharAt(s, '/', i);
      var rest := dir[i + 1..] + "/" + name;
      assert s[i + 1..] == rest;
      assert Split(s, '/') == [s[..i]] + Split(rest, '/');
      SplitLastPiece(dir[i + 1..], name);
    } else {
      assert s[..|dir|] == dir;
      FindCharAt(s, '/', |dir|);
      assert s[|dir| + 1..] == name;
      SplitAbsent(name, '/');
      assert Split(s, '/') == [dir] + [name];
    }
  }

  /** Directories in front of a plain file name do not change it, nor its
      stem or extension. */
  lemma DirectoryIgnored(dir: string, name: string)
    requires '/' !in name && name != "" && name != "." && name != ".."
    ensures FileName(dir + "/" + name) == FileName(name) == Some(name)
    ensures Extension(dir + "/" + name) == Extension(name)
    ensures FileStem(dir + "/" + name) == FileStem(name)
  {
    SplitLastPiece(dir, name);
    SplitAbsent(name, '/');
  }

  /** `stem.ext` splits back into `stem` and `ext` when the extension has no
      dot and the stem is neither empty nor `.` (which would make `..`). */
  lemma StemAndExtension(stem: string, ext: string)
    requires stem != "" && stem != "." && '/' !in stem && '/' !in ext && '.' !in ext
    ensures FileName(stem + "." + ext) == Some(stem + "." + ext)
    ensures FileStem(stem + "." + ext) == Some(stem)
    ensures Extension(stem + "." + ext) == Some(ext)
  {
    var name := stem + "." + ext;
    assert '/' !in name by {
      assert forall i :: 0 <= i < |name| ==> name[i] == (if i < |stem| then stem[i] else if i == |stem| then '.' else ext[i - |stem| - 1]);
    }
    assert name != ".." && name != "." by {
      assert |name| == |stem| + 1 + |ext|;
      if |name| <= 2 {
        assert |stem| == 1 && ext == [];
        assert stem == [name[0]];
      }
    }
    SplitAbsent(name, '/');
    assert name[|stem|] == '.';
    assert name[|stem| + 1..] == ext;
    assert name[..|stem|] == stem;
    var d := LastIndexOf(name, '.').value;
    assert d == |stem|;
  }
}
