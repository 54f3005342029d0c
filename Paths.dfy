/** `os.path.splitext` (POSIX flavour, `/` as the only separator) and the
    video-extension filter built on it. */
module Paths {
  import opened Text

  /** The extensions the renamer accepts, lower case. */
  const VideoExtensions: set<string> := {".mkv", ".mp4", ".avi", ".mov", ".wmv"}

  /** Index of the last `c` in `s[..n]`, or -1. */
  function LastIndexBefore(s: string, c: char, n: nat): (r: int)
    requires n <= |s|
    ensures -1 <= r < n
    ensures r >= 0 ==> s[r] == c
    ensures forall k :: r < k < n ==> s[k] != c
  {
    if n == 0 then -1
    else if s[n - 1] == c then n - 1
    else LastIndexBefore(s, c, n - 1)
  }

  /** Index of the last `c` in `s`, or -1 (Python's `str.rfind`). */
  function LastIndex(s: string, c: char): (r: int)
    ensures -1 <= r < |s|
    ensures r >= 0 ==> s[r] == c
    ensures forall k :: r < k < |s| ==> s[k] != c
  {
    LastIndexBefore(s, c, |s|)
  }

  /** Some character of `p[a..b]` is not a dot: the scan `splitext` does to
      skip the leading dots of a base name. */
  function NonDotBetween(p: string, a: nat, b: nat): (r: bool)
    requires a <= b <= |p|
    ensures r <==> exists k :: a <= k < b && p[k] != '.'
    decreases b - a
  {
    if a == b then false else p[a] != '.' || NonDotBetween(p, a + 1, b)
  }

  /** The path has an extension in the sense of `splitext`: a dot `d` with no
      dot and no `/` after it, and a character of the base name before `d`
      that is not a dot (leading dots of a base name do not start an
      extension). */
  ghost predicate HasExtension(p: string) {
    exists k, d :: 0 <= k < d < |p| && p[d] == '.' && p[k] != '.' && p[k] != '/'
      && (forall m :: k < m < |p| ==> p[m] != '/')
      && (forall m :: d < m < |p| ==> p[m] != '.')
  }

  /** `os.path.splitext(p)`: `(root, ext)` with `root + ext == p`; `ext` is
      empty or a dot followed by neither dots nor slashes, and it is
      non-empty exactly when the path has an extension. */
  function SplitExt(p: string): (r: (string, string))
    ensures r.0 + r.1 == p
    ensures r.1 != [] ==> IsExtension(r.1)
    ensures r.1 != [] <==> HasExtension(p)
  {
    var sep := LastIndex(p, '/');
    var dot := LastIndex(p, '.');
    if dot > sep && NonDotBetween(p, sep + 1, dot) then
      assert forall k :: 0 < k < |p[dot..]| ==> p[dot..][k] == p[dot + k];
      (p[..dot], p[dot..])
    else
      (p, [])
  }

  /** `is_video`: the lower-cased extension is one of the video extensions.
      An accepted path has a `splitext` extension of four characters. */
  predicate IsVideo(path: string): (r: bool)
    ensures r ==> HasExtension(path) && |SplitExt(path).1| == 4
  {
    Lower(SplitExt(path).1) in VideoExtensions
  }

  /** The extension test is case-insensitive: lower-casing a path never
      changes whether it is accepted. */
  lemma IsVideoIgnoresCase(path: string)
    ensures IsVideo(Lower(path)) == IsVideo(path)
  {
    var lp := Lower(path);
    assert forall i :: 0 <= i < |path| ==> (lp[i] == '.' <==> path[i] == '.') && (lp[i] == '/' <==> path[i] == '/');
    var sep, dot := LastIndex(path, '/'), LastIndex(path, '.');
    assert LastIndex(lp, '/') == sep;
    assert LastIndex(lp, '.') == dot;
    if dot > sep && NonDotBetween(path, sep + 1, dot) {
      assert NonDotBetween(lp, sep + 1, dot);
      assert Lower(lp[dot..]) == Lower(path[dot..]);
    } else {
      assert !(dot > sep && NonDotBetween(lp, sep + 1, dot));
    }
  }

  /** What lower-casing to a video extension says about the original
      characters: a leading dot, then three characters that are neither dots
      nor slashes. */
  lemma VideoExtensionShape(t: string)
    requires Lower(t) in VideoExtensions
    ensures |t| == 4 && t[0] == '.'
    ensures forall k :: 0 < k < 4 ==> t[k] != '.' && t[k] != '/'
  {
    var lt := Lower(t);
    assert |lt| == 4 && lt[0] == '.';
    assert forall k :: 0 < k < 4 ==> 'a' <= lt[k] <= 'z' || '0' <= lt[k] <= '9';
  }

  /** A path is accepted exactly when its last four characters, lower-cased,
      are a video extension and `splitext` sees an extension there (so `.mkv`
      or `dir/.mkv` alone is not accepted). */
  lemma IsVideoByLastFour(path: string)
    ensures IsVideo(path) <==>
      |path| >= 4 && Lower(path[|path| - 4..]) in VideoExtensions && HasExtension(path)
  {
    var ext := SplitExt(path).1;
    if IsVideo(path) {
      VideoExtensionShape(ext);
      assert path[|path| - 4..] == ext;
    }
    if |path| >= 4 && Lower(path[|path| - 4..]) in VideoExtensions && HasExtension(path) {
      var tail := path[|path| - 4..];
      VideoExtensionShape(tail);
      assert forall m :: |path| - 4 <= m < |path| ==> path[m] == tail[m - (|path| - 4)];
      assert LastIndex(path, '.') == |path| - 4;
      assert ext == tail;
    }
  }

  /** A non-empty extension in the sense of `splitext`: a dot followed by
      neither dots nor slashes. */
  predicate IsExtension(e: string) {
    e != [] && e[0] == '.' && forall k :: 0 < k < |e| ==> e[k] != '.' && e[k] != '/'
  }

  /** Appending an extension to a base name that holds no `/` and some
      character other than a dot splits back into exactly those two parts. */
  lemma SplitExtAppend(x: string, e: string)
    requires IsExtension(e)
    requires forall k :: 0 <= k < |x| ==> x[k] != '/'
    requires exists k :: 0 <= k < |x| && x[k] != '.'
    ensures SplitExt(x + e) == (x, e)
  {
    var p := x + e;
    assert forall k :: 0 <= k < |x| ==> p[k] == x[k];
    assert forall k :: 0 <= k < |e| ==> p[|x| + k] == e[k];
    assert LastIndex(p, '/') == -1;
    assert LastIndex(p, '.') == |x|;
    var k :| 0 <= k < |x| && x[k] != '.';
    assert NonDotBetween(p, 0, |x|) by { assert p[k] != '.'; }
    assert p[..|x|] == x && p[|x|..] == e;
  }
}
