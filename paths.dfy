/**
 * The path arithmetic of `makeGif`: POSIX `os.path.basename` and
 * `os.path.splitext`, and the output path built from them.
 */
module Paths {
  import opened Text

  /** `os.path.basename`, written as the GUI writes it: `p.split('/')[-1]`. */
  function Basename(p: string): string
  {
    Last(Split(p, '/'))
  }

  /** The basename is what follows the last '/', and holds no '/'. */
  lemma BasenameIsTail(p: string)
    ensures Basename(p) == p[LastIndexOf(p, '/') + 1..]
    ensures '/' !in Basename(p)
  {
    SplitLast(p, '/');
  }

  /**
   * A file name has an extension in the sense of `splitext` when some '.'
   * in it comes after a character other than '.': leading dots (".bashrc",
   * "..") never start one.
   */
  predicate HasExtension(name: string)
  {
    exists i, j :: 0 <= i < j < |name| && name[i] != '.' && name[j] == '.'
  }

  /** What `splitext` can return as an extension: a '.' followed by neither '.' nor '/'. */
  predicate IsExtension(e: string)
  {
    |e| >= 1 && e[0] == '.' && '.' !in e[1..] && '/' !in e
  }

  /** A '.' followed by a name free of '.' and '/' is an extension. */
  lemma DotExtension(name: string)
    requires '.' !in name && '/' !in name
    ensures IsExtension("." + name)
  {
    assert ("." + name)[1..] == name;
  }

  /**
   * `os.path.splitext` on POSIX (genericpath._splitext with sep '/' and
   * extsep '.'): split at the last '.' when it lies in the final component
   * and is preceded there by a character other than '.'; otherwise the
   * extension is empty.
   */
  function SplitExt(p: string): (r: (string, string))
    ensures r.0 + r.1 == p
    ensures r.1 == [] || IsExtension(r.1)
  {
    var sepIndex := LastIndexOf(p, '/');
    var dotIndex := LastIndexOf(p, '.');
    if dotIndex > sepIndex && exists k :: sepIndex < k < dotIndex && p[k] != '.' then
      assert forall k :: dotIndex < k < |p| ==> p[k] != '.' && p[k] != '/';
      (p[..dotIndex], p[dotIndex..])
    else
      (p, [])
  }

  /** A non-empty extension starts at the path's last '.'. */
  lemma SplitExtAtLastDot(p: string)
    requires SplitExt(p).1 != []
    ensures SplitExt(p).1 == p[LastIndexOf(p, '.')..]
  {
  }

  /** A non-empty extension is the basename from its last '.' on. */
  lemma ExtensionInsideBasename(p: string)
    requires SplitExt(p).1 != []
    ensures var b := Basename(p);
            var k := LastIndexOf(b, '.');
            k >= 0 && SplitExt(p).1 == b[k..]
  {
    var b := Basename(p);
    BasenameIsTail(p);
    var dir := p[..LastIndexOf(p, '/') + 1];
    assert p == dir + b;
    LastIndexOfConcat(dir, b, '.');
    SplitExtAtLastDot(p);
  }

  /** `splitext` finds an extension exactly when the basename has one. */
  lemma SplitExtFindsExtension(p: string)
    ensures SplitExt(p).1 != [] <==> HasExtension(Basename(p))
  {
    BasenameIsTail(p);
    if SplitExt(p).1 != [] {
      ExtensionInBasename(p);
    }
    if HasExtension(Basename(p)) {
      ExtensionFromBasename(p);
    }
  }

  lemma ExtensionInBasename(p: string)
    requires SplitExt(p).1 != []
    ensures HasExtension(p[LastIndexOf(p, '/') + 1..])
  {
    var sepIndex := LastIndexOf(p, '/');
    var dotIndex := LastIndexOf(p, '.');
    var b := p[sepIndex + 1..];
    var k :| sepIndex < k < dotIndex && p[k] != '.';
    assert b[k - sepIndex - 1] != '.';
    assert b[dotIndex - sepIndex - 1] == '.';
  }

  lemma ExtensionFromBasename(p: string)
    requires HasExtension(p[LastIndexOf(p, '/') + 1..])
    ensures SplitExt(p).1 != []
  {
    var sepIndex := LastIndexOf(p, '/');
    var dotIndex := LastIndexOf(p, '.');
    var b := p[sepIndex + 1..];
    var i, j :| 0 <= i < j < |b| && b[i] != '.' && b[j] == '.';
    assert p[sepIndex + 1 + j] == '.';
    assert sepIndex + 1 + j <= dotIndex;
    assert p[sepIndex + 1 + i] != '.';
  }

  /**
   * `os.path.splitext(inputPath)[0] + targetFormat`: the output path ends
   * with the target format, keeps the directory, and is the input with its
   * extension (if any) replaced.
   */
  function OutputPath(inputPath: string, targetFormat: string): (r: string)
    ensures |r| >= |targetFormat| && r[|r| - |targetFormat|..] == targetFormat
    ensures r[..|r| - |targetFormat|] + SplitExt(inputPath).1 == inputPath
    ensures inputPath[..LastIndexOf(inputPath, '/') + 1] <= r
  {
    var root := SplitExt(inputPath).0;
    var r := root + targetFormat;
    assert r[..|root|] == root;
    r
  }

  /** A name with some character other than '.': appending an extension to it makes one. */
  predicate HasNonDot(name: string)
  {
    exists i :: 0 <= i < |name| && name[i] != '.'
  }

  /** A string ends in at most one way with an extension. */
  lemma ExtensionUnique(a: string, x: string, b: string, y: string)
    requires a + x == b + y
    requires IsExtension(x) && IsExtension(y)
    ensures x == y && a == b
  {
    var s := a + x;
    assert x == s[|a|..];
    assert y == s[|b|..];
    assert a == s[..|a|];
    assert b == s[..|b|];
  }

  /** A name after a directory that ends in '/' is the basename. */
  lemma BasenameAfterDir(dir: string, name: string)
    requires dir == [] || dir[|dir| - 1] == '/'
    requires '/' !in name
    ensures Basename(dir + name) == name
  {
    LastIndexOfConcat(dir, name, '/');
    BasenameIsTail(dir + name);
    assert (dir + name)[|dir|..] == name;
  }

  /**
   * Appending an extension to a path whose basename is not all dots gives
   * a path that `splitext` splits back into the two.
   */
  lemma SplitExtOfAppended(root: string, ext: string)
    requires IsExtension(ext)
    requires HasNonDot(Basename(root))
    ensures SplitExt(root + ext) == (root, ext)
  {
    var q := root + ext;
    LastIndexOfConcat(root, ext, '/');
    BasenameIsTail(root);
    BasenameIsTail(q);
    var b := Basename(root);
    assert Basename(q) == b + ext;
    var i :| 0 <= i < |b| && b[i] != '.';
    assert (b + ext)[i] != '.' && (b + ext)[|b|] == '.';
    SplitExtFindsExtension(q);
    var r := SplitExt(q);
    ExtensionUnique(root, ext, r.0, r.1);
  }

  /** Replacing the type of `root.type`, whose `root` has a basename not all dots, gives `root` plus the target. */
  lemma OutputPathOfTyped(root: string, videoType: string, targetFormat: string)
    requires '.' !in videoType && '/' !in videoType
    requires HasNonDot(Basename(root))
    ensures OutputPath(root + "." + videoType, targetFormat) == root + targetFormat
  {
    assert root + "." + videoType == root + ("." + videoType);
    DotExtension(videoType);
    SplitExtOfAppended(root, "." + videoType);
  }

  /**
   * Appending an extension to the stem produces a path whose extension is
   * exactly that one, provided the stem's basename is not all dots; so
   * deriving the output path a second time changes nothing.
   */
  lemma OutputPathIdempotent(p: string, targetFormat: string)
    requires IsExtension(targetFormat)
    requires HasNonDot(Basename(SplitExt(p).0))
    ensures SplitExt(OutputPath(p, targetFormat)) == (SplitExt(p).0, targetFormat)
    ensures OutputPath(OutputPath(p, targetFormat), targetFormat) == OutputPath(p, targetFormat)
  {
    SplitExtOfAppended(SplitExt(p).0, targetFormat);
  }

  /**
   * The output path coincides with the input path exactly when the input
   * already carries the target format as its extension: a ".gif" source is
   * overwritten by its own conversion.
   */
  lemma OutputOverwritesInput(p: string, targetFormat: string)
    ensures OutputPath(p, targetFormat) == p <==> SplitExt(p).1 == targetFormat
  {
    var (root, ext) := SplitExt(p);
    if OutputPath(p, targetFormat) == p {
      assert root + targetFormat == root + ext;
      assert targetFormat == (root + targetFormat)[|root|..];
      assert ext == (root + ext)[|root|..];
    }
  }
}
