// The parts of `std::path::Path` the viewer and the icon generator use,
// for '/'-separated paths held as strings: the file name, the extension
// and `with_extension`.
module Paths {
  import opened Wrappers

  /** Drops trailing separators and trailing `/.` components, which `Path`
      does not count as components. */
  function StripTrailing(p: string): (r: string)
    ensures |r| <= |p| && r == p[..|r|]
    decreases |p|
  {
    if |p| >= 1 && p[|p| - 1] == '/' then StripTrailing(p[..|p| - 1])
    else if |p| >= 2 && p[|p| - 2..] == "/." then StripTrailing(p[..|p| - 2])
    else p
  }

  /** The text after the last separator. */
  function LastSegment(p: string): (r: string)
    ensures |r| <= |p| && r == p[|p| - |r|..]
    ensures '/' !in r
    ensures |r| < |p| ==> p[|p| - |r| - 1] == '/'
  {
    if p == [] || p[|p| - 1] == '/' then []
    else LastSegment(p[..|p| - 1]) + [p[|p| - 1]]
  }

  /** `Path::file_name`: the last normal component, None for a path that is
      empty, the root, `.` or ends in `..`. */
  function FileName(p: string): (r: Option<string>)
    ensures r.Some? ==> r.value != [] && '/' !in r.value && r.value != ".."
  {
    var seg := LastSegment(StripTrailing(p));
    if seg == [] || seg == "." || seg == ".." then None else Some(seg)
  }

  /** `display_file_name` (src/utils.rs, src/pdf/utils.rs): the file name,
      else the whole path. */
  function DisplayFileName(p: string): (r: string)
    ensures FileName(p).Some? ==> r == FileName(p).value
    ensures FileName(p).None? ==> r == p
  {
    match FileName(p) case Some(n) => n case None => p
  }

  /** A file name that contains no separator is its own file name. */
  lemma FileNameOfPlainName(n: string)
    requires n != [] && n != "." && n != ".." && '/' !in n
    ensures FileName(n) == Some(n)
  {
    assert n[|n| - 1] in n;
    if |n| >= 2 { assert n[|n| - 2] in n; }
    assert StripTrailing(n) == n;
    LastSegmentOfPlain(n);
  }

  lemma {:induction false} LastSegmentOfPlain(n: string)
    requires '/' !in n
    ensures LastSegment(n) == n
  {
    if n != [] {
      LastSegmentOfPlain(n[..|n| - 1]);
    }
  }

  /** The file name under a directory: `dir/name` has file name `name`. */
  lemma FileNameUnderDirectory(dir: string, n: string)
    requires n != [] && n != "." && n != ".." && '/' !in n
    ensures FileName(dir + "/" + n) == Some(n)
  {
    StripTrailingUnderDirectory(dir, n);
    LastSegmentAfterSlash(dir + "/", n);
  }

  lemma StripTrailingUnderDirectory(dir: string, n: string)
    requires n != [] && n != "." && '/' !in n
    ensures StripTrailing(dir + "/" + n) == dir + "/" + n
  {
    var p := dir + "/" + n;
    assert p[|p| - 1] == n[|n| - 1] && n[|n| - 1] in n;
    if |n| >= 2 { assert p[|p| - 2] == n[|n| - 2] && n[|n| - 2] in n; }
    else { assert p[|p| - 2] == '/' && p[|p| - 1] != '.'; }
  }

  lemma {:induction false} LastSegmentAfterSlash(d: string, n: string)
    requires d != [] && d[|d| - 1] == '/' && '/' !in n
    ensures LastSegment(d + n) == n
    decreases |n|
  {
    if n == [] {
      assert d + n == d;
    } else {
      assert (d + n)[..|d + n| - 1] == d + n[..|n| - 1];
      LastSegmentAfterSlash(d, n[..|n| - 1]);
    }
  }

  function LastDot(s: string): (r: Option<nat>)
    ensures r.Some? ==> r.value < |s| && s[r.value] == '.' && '.' !in s[r.value + 1..]
    ensures r.None? ==> '.' !in s
  {
    if s == [] then None
    else if s[|s| - 1] == '.' then Some(|s| - 1)
    else
      var r := LastDot(s[..|s| - 1]);
      assert s == s[..|s| - 1] + [s[|s| - 1]];
      r
  }

  /** Splits a file name at its last dot into stem and extension; a name
      whose only dot is its first character, or `..`, has no extension. */
  function SplitDot(name: string): (r: (string, Option<string>))
    ensures r.1.None? ==> r.0 == name
    ensures r.1.Some? ==> name == r.0 + "." + r.1.value && r.0 != [] && '.' !in r.1.value
  {
    if name == ".." then (name, None)
    else match LastDot(name)
      case None => (name, None)
      case Some(i) =>
        if i == 0 then (name, None)
        else
          assert name == name[..i] + "." + name[i + 1..];
          (name[..i], Some(name[i + 1..]))
  }

  /** `Path::extension`. */
  function Extension(p: string): (r: Option<string>)
    ensures r.Some? ==> FileName(p).Some?
  {
    match FileName(p)
    case None => None
    case Some(n) => SplitDot(n).1
  }

  /** `Path::with_extension(ext)`: everything after the file stem is replaced
      by `.ext`; a path without a file name is returned as it is. */
  function WithExtension(p: string, ext: string): (r: string)
    ensures FileName(p).None? ==> r == p
  {
    match FileName(p)
    case None => p
    case Some(n) =>
      var stripped := StripTrailing(p);
      var start := |stripped| - |n|;
      var stem := SplitDot(n).0;
      assert |stem| <= |n|;
      p[..start + |stem|] + (if ext == [] then [] else "." + ext)
  }

  /** `dir/stem.ext` has extension `ext`. */
  lemma ExtensionOfName(dir: string, stem: string, ext: string)
    requires stem != [] && '/' !in stem && '.' !in stem
    requires ext != [] && '/' !in ext && '.' !in ext
    ensures Extension(dir + "/" + stem + "." + ext) == Some(ext)
  {
    var n := stem + "." + ext;
    assert '/' !in n by {
      forall i | 0 <= i < |n| ensures n[i] != '/' {
        if i < |stem| { assert n[i] == stem[i]; }
        else if i > |stem| { assert n[i] == ext[i - |stem| - 1]; }
      }
    }
    assert dir + "/" + stem + "." + ext == dir + "/" + n;
    FileNameUnderDirectory(dir, n);
    LastDotBeforeExtension(stem, ext);
  }

  /** `with_extension` on `dir/name` keeps the directory and the stem of
      `name`, and then has the new extension. */
  lemma WithExtensionUnderDirectory(dir: string, n: string, ext: string)
    requires n != [] && n != "." && n != ".." && '/' !in n
    requires ext != [] && '/' !in ext && '.' !in ext
    ensures WithExtension(dir + "/" + n, ext) == dir + "/" + SplitDot(n).0 + "." + ext
    ensures '.' !in SplitDot(n).0 && SplitDot(n).0 != [] ==>
              Extension(WithExtension(dir + "/" + n, ext)) == Some(ext)
  {
    var p := dir + "/" + n;
    FileNameUnderDirectory(dir, n);
    StripTrailingUnderDirectory(dir, n);
    var stem := SplitDot(n).0;
    assert n[..|stem|] == stem;
    assert p[..|dir| + 1 + |stem|] == dir + "/" + stem;
    assert WithExtension(p, ext) == p[..|dir| + 1 + |stem|] + "." + ext;
    var stemOk := '.' !in stem && stem != [];
    if stemOk {
      assert '/' !in stem by {
        forall i | 0 <= i < |stem| ensures stem[i] != '/' { assert stem[i] == n[i]; }
      }
      ExtensionOfName(dir, stem, ext);
    }
  }

  lemma {:induction false} LastDotBeforeExtension(stem: string, ext: string)
    requires '.' !in ext
    ensures LastDot(stem + "." + ext) == Some(|stem|)
    decreases |ext|
  {
    var n := stem + "." + ext;
    if ext == [] {
      assert n == stem + ".";
    } else {
      assert n[..|n| - 1] == stem + "." + ext[..|ext| - 1];
      assert ext[|ext| - 1] in ext;
      LastDotBeforeExtension(stem, ext[..|ext| - 1]);
    }
  }
}
