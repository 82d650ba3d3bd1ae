/**
 * `PathHelper`: renaming and extracting file names, over a model of PHP's
 * `pathinfo` with `/` as the only directory separator.
 *
 * `pathinfo` takes the basename as `basename` does (trailing slashes are
 * dropped, then everything up to the last `/`); the extension is what
 * follows the last `.` of the basename, `""` when there is none; the
 * file name is the basename up to that `.`, or all of it.
 */
module PathHelper {
  import opened Wrappers
  import opened Text

  /** The path without its trailing slashes. */
  function StripSlashes(s: string): (r: string)
    ensures |r| <= |s| && r == s[..|r|]
    ensures |r| == 0 || r[|r| - 1] != '/'
    ensures forall i :: |r| <= i < |s| ==> s[i] == '/'
  {
    if |s| > 0 && s[|s| - 1] == '/' then StripSlashes(s[..|s| - 1]) else s
  }

  /** The position of the last `c` in `s`. */
  function LastIndex(s: string, c: char): (r: Option<nat>)
    ensures r.Some? ==> r.value < |s| && s[r.value] == c && c !in s[r.value + 1..]
    ensures r.None? <==> c !in s
  {
    if |s| == 0 then None
    else if s[|s| - 1] == c then Some(|s| - 1)
    else
      var r := LastIndex(s[..|s| - 1], c);
      assert s == s[..|s| - 1] + [s[|s| - 1]];
      if r.Some? then assert s[r.value + 1..] == s[..|s| - 1][r.value + 1..] + [s[|s| - 1]]; r
      else r
  }

  /** `basename`: the last component of the path. */
  function BaseName(path: string): (r: string)
    ensures '/' !in r
    ensures EndsWith(StripSlashes(path), r)
    ensures |r| == |StripSlashes(path)| || StripSlashes(path)[|StripSlashes(path)| - |r| - 1] == '/'
  {
    var t := StripSlashes(path);
    match LastIndex(t, '/')
    case None => t
    case Some(i) => t[i + 1..]
  }

  /** What follows the last dot of a basename, `""` when it has none. */
  function Suffix(b: string): (r: string)
    ensures '.' !in r
    ensures '/' !in b ==> '/' !in r
  {
    match LastIndex(b, '.')
    case None => ""
    case Some(i) => b[i + 1..]
  }

  /** A basename up to its last dot, or all of it. */
  function Stem(b: string): (r: string)
    ensures '/' !in b ==> '/' !in r
  {
    match LastIndex(b, '.')
    case None => b
    case Some(i) => assert forall k :: 0 <= k < i ==> b[..i][k] == b[k]; b[..i]
  }

  /** A basename splits into its stem and its suffix at its last dot. */
  lemma StemSuffix(b: string)
    ensures '.' in b ==> Stem(b) + "." + Suffix(b) == b
    ensures '.' !in b ==> Stem(b) == b && Suffix(b) == ""
  {
    match LastIndex(b, '.')
    case None =>
    case Some(i) =>
      assert b == b[..i] + [b[i]] + b[i + 1..];
  }

  /** `pathinfo($path, PATHINFO_EXTENSION)`. */
  function Extension(path: string): (r: string)
    ensures '.' !in r && '/' !in r
  {
    Suffix(BaseName(path))
  }

  /** `pathinfo($path, PATHINFO_FILENAME)`. */
  function FileName(path: string): (r: string)
    ensures '/' !in r
  {
    Stem(BaseName(path))
  }

  /** The basename splits into the file name and the extension at its last dot. */
  lemma BaseNameParts(path: string)
    ensures '.' in BaseName(path) ==> FileName(path) + "." + Extension(path) == BaseName(path)
    ensures '.' !in BaseName(path) ==> FileName(path) == BaseName(path) && Extension(path) == ""
  {
    StemSuffix(BaseName(path));
  }

  /** `ChangeFileExtension`: the file name, without the directory, with the new extension if one is given. */
  function ChangeFileExtension(filename: string, newExtension: string): (r: string)
    ensures '/' !in newExtension ==> '/' !in r
    ensures newExtension != "" ==> EndsWith(r, "." + newExtension)
    ensures newExtension == "" ==> r == FileName(filename)
    ensures newExtension != "" ==> r == FileName(filename) + "." + newExtension
  {
    WithExtension(FileName(filename), newExtension)
  }

  /** A slash-free name with the extension appended after a dot, or alone when the extension is empty. */
  function WithExtension(f: string, e: string): (r: string)
    requires '/' !in f
    ensures '/' !in e ==> '/' !in r
    ensures e != "" ==> EndsWith(r, "." + e)
    ensures e == "" ==> r == f
    ensures e != "" ==> r == f + "." + e
  {
    if e == "" then f
    else
      var r := f + "." + e;
      assert r[|r| - |e| - 1..] == "." + e;
      r
  }

  /** `ChangeFileName`: the extension, after the new name and a dot if a name is given. */
  function ChangeFileName(filename: string, newName: string): (r: string)
    ensures newName == "" ==> '.' !in r
    ensures newName != "" ==> StartsWith(r, newName + ".")
    ensures newName == "" ==> r == Extension(filename)
    ensures newName != "" ==> r == newName + "." + Extension(filename)
  {
    if newName == "" then Extension(filename) else newName + "." + Extension(filename)
  }

  /** `ExtractFileName`: the basename. */
  function ExtractFileName(filename: string): (r: string)
    ensures '/' !in r
    ensures r == BaseName(filename)
  {
    BaseName(filename)
  }

  /** A name with one dot and no slash is its own basename, split at that dot. */
  lemma SplitOfPlain(n: string, e: string)
    requires '/' !in n && '/' !in e && '.' !in e
    ensures BaseName(n + "." + e) == n + "." + e
    ensures FileName(n + "." + e) == n
    ensures Extension(n + "." + e) == e
  {
    var s := n + "." + e;
    assert s[|s| - 1] != '/' by {
      if |e| > 0 { assert s[|s| - 1] == e[|e| - 1]; } else { assert s[|s| - 1] == '.'; }
    }
    assert StripSlashes(s) == s;
    assert '/' !in s;
    assert LastIndex(s, '/').None?;
    var i := LastIndex(s, '.');
    assert s[|n|] == '.';
    assert s[|n| + 1..] == e;
    assert i.Some?;
    forall k | i.value < k < |s|
      ensures s[k] != '.'
    {
      assert s[k] == s[i.value + 1..][k - i.value - 1];
    }
    forall k | |n| < k < |s|
      ensures s[k] != '.'
    {
      assert s[k] == e[k - |n| - 1];
    }
    assert i.value == |n|;
    assert s[..|n|] == n;
  }

  /**
   * Setting a non-empty extension twice is setting it once, when it holds no
   * dot or slash. Removing the extension is not idempotent: `a.tar.gz` gives
   * `a.tar`, which gives `a`.
   */
  lemma ChangeFileExtensionIdempotent(filename: string, e: string)
    requires e != "" && '.' !in e && '/' !in e
    ensures ChangeFileExtension(ChangeFileExtension(filename, e), e) == ChangeFileExtension(filename, e)
  {
    var x := ChangeFileExtension(filename, e);
    assert x == FileName(filename) + "." + e;
    SplitOfPlain(FileName(filename), e);
    assert FileName(x) == FileName(filename);
  }

  /** After setting an extension, the file keeps its name and has the new extension. */
  lemma ChangeFileExtensionParts(filename: string, e: string)
    requires e != "" && '.' !in e && '/' !in e
    ensures FileName(ChangeFileExtension(filename, e)) == FileName(filename)
    ensures Extension(ChangeFileExtension(filename, e)) == e
  {
    SplitOfPlain(FileName(filename), e);
  }

  /** Setting the extension a file already has gives its basename back. */
  lemma ChangeFileExtensionRestores(filename: string)
    requires Extension(filename) != ""
    ensures ChangeFileExtension(filename, Extension(filename)) == BaseName(filename)
  {
    BaseNameParts(filename);
  }

  /** After renaming, the file has the new name and keeps its extension. */
  lemma ChangeFileNameParts(filename: string, n: string)
    requires n != "" && '/' !in n
    ensures FileName(ChangeFileName(filename, n)) == n
    ensures Extension(ChangeFileName(filename, n)) == Extension(filename)
  {
    SplitOfPlain(n, Extension(filename));
  }

  /** Renaming a file with a dot to its own name gives its basename back. */
  lemma ChangeFileNameRestores(filename: string)
    requires FileName(filename) != "" && '.' in BaseName(filename)
    ensures ChangeFileName(filename, FileName(filename)) == BaseName(filename)
  {
    BaseNameParts(filename);
  }

  lemma ExtractFileNameExamples()
    ensures ExtractFileName("/var/www/index.php") == "index.php"
    ensures ExtractFileName("a/b/") == "b"
  {
    IndexBaseName();
    TrailingSlashBaseName();
  }

  lemma IndexBaseName()
    ensures ExtractFileName("/var/www/index.php") == "index.php"
  {
    var s := "/var/www/index.php";
    assert StripSlashes(s) == s;
    assert s[9..] == "index.php";
    LastIndexAt(s, '/', 8);
  }

  /** The last `c` is at `i` when `s[i]` is `c` and none follows it. */
  lemma LastIndexAt(s: string, c: char, i: nat)
    requires i < |s| && s[i] == c && c !in s[i + 1..]
    ensures LastIndex(s, c) == Some(i)
  {
    assert s[i] == c;
  }

  lemma TrailingSlashBaseName()
    ensures ExtractFileName("a/b/") == "b"
  {
    assert StripSlashes("a/b/") == "a/b";
    assert LastIndex("a/b", '/') == Some(1);
  }

  lemma IndexDot()
    ensures LastIndex("index.php", '.') == Some(5)
  {
    assert "index.php"[5] == '.';
    assert "index.php"[6..] == "php";
    assert '.' !in "php";
  }

  lemma IndexParts()
    ensures FileName("/var/www/index.php") == "index"
    ensures Extension("/var/www/index.php") == "php"
  {
    ExtractFileNameExamples();
    IndexDot();
    assert "index.php"[..5] == "index" && "index.php"[6..] == "php";
  }

  lemma ChangeFileExtensionExamples()
    ensures ChangeFileExtension("/var/www/index.php", "") == "index"
    ensures ChangeFileName("/var/www/index.php", "main") == "main.php"
  {
    assert "main" + "." + "php" == "main.php";
    IndexParts();
  }

  lemma TarGzName()
    ensures FileName("a.tar.gz") == "a.tar"
  {
    assert StripSlashes("a.tar.gz") == "a.tar.gz";
    assert LastIndex("a.tar.gz", '/').None?;
    assert LastIndex("a.tar.gz", '.') == Some(5);
    assert "a.tar.gz"[..5] == "a.tar";
  }

  lemma TarName()
    ensures FileName("a.tar") == "a"
  {
    assert StripSlashes("a.tar") == "a.tar";
    assert LastIndex("a.tar", '/').None?;
    assert LastIndex("a.tar", '.') == Some(1);
    assert "a.tar"[..1] == "a";
  }

  lemma ChangeFileExtensionNotIdempotent()
    ensures ChangeFileExtension("a.tar.gz", "") == "a.tar"
    ensures ChangeFileExtension("a.tar", "") == "a"
  {
    TarGzName();
    TarName();
  }
}
