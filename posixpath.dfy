/** The parts of Python's POSIX path and string library that the upload
    handler relies on: `str.rfind`, `os.path.splitext`, `os.path.join` and
    `str.lower` (restricted to ASCII, see README). */
module PosixPath {

  /** `s.rfind(c)`: the index of the last occurrence of `c`, or -1. The
      three postconditions determine the result uniquely. */
  function LastIndexOf(s: string, c: char): (r: int)
    ensures -1 <= r < |s|
    ensures r >= 0 ==> s[r] == c
    ensures forall j :: r < j < |s| ==> s[j] != c
  {
    if |s| == 0 then -1
    else if s[|s| - 1] == c then |s| - 1
    else LastIndexOf(s[..|s| - 1], c)
  }

  /** Some character of `s[lo..hi]` is not a dot. */
  predicate HasNonDot(s: string, lo: int, hi: int)
    requires 0 <= lo <= hi <= |s|
  {
    exists k :: lo <= k < hi && s[k] != '.'
  }

  datatype Split = Split(root: string, ext: string)

  /** `os.path.splitext(p)`: the extension runs from the last dot of the
      final path component to the end, unless every character of the
      component before that dot is itself a dot (`.png`, `..x`), in which
      case there is no extension. */
  function SplitExt(p: string): Split {
    var sep := LastIndexOf(p, '/');
    var dot := LastIndexOf(p, '.');
    if dot > sep && HasNonDot(p, sep + 1, dot) then Split(p[..dot], p[dot..])
    else Split(p, [])
  }

  /** The two parts put back together give the path; a non-empty extension
      is one dot followed by characters that are neither dots nor slashes. */
  lemma SplitExtShape(p: string)
    ensures SplitExt(p).root + SplitExt(p).ext == p
    ensures var ext := SplitExt(p).ext;
      && (ext != [] ==> ext[0] == '.')
      && forall i :: 0 < i < |ext| ==> ext[i] != '.' && ext[i] != '/'
  {
    var sep := LastIndexOf(p, '/');
    var dot := LastIndexOf(p, '.');
    if dot > sep && HasNonDot(p, sep + 1, dot) {
      assert p[..dot] + p[dot..] == p;
      forall i | 0 < i < |p| - dot ensures p[dot..][i] != '.' && p[dot..][i] != '/' {
        assert p[dot..][i] == p[dot + i];
      }
    } else {
      assert p + [] == p;
    }
  }

  function Extension(p: string): string {
    SplitExt(p).ext
  }

  /** The final path component of `stem` (after its last `/`) holds a
      character that is not a dot, so a dot right after `stem` starts an
      extension. */
  predicate HasName(stem: string) {
    HasNonDot(stem, LastIndexOf(stem, '/') + 1, |stem|)
  }

  /** Cutting `s` at `k` keeps the last `c` when none occurs from `k` on. */
  lemma LastIndexOfPrefix(s: string, k: nat, c: char)
    requires k <= |s|
    requires forall i :: k <= i < |s| ==> s[i] != c
    ensures LastIndexOf(s[..k], c) == LastIndexOf(s, c)
  {
    var r, q := LastIndexOf(s[..k], c), LastIndexOf(s, c);
    if r >= 0 { assert s[r] == s[..k][r]; }
    if q >= 0 { assert q < k && s[..k][q] == s[q]; }
  }

  /** Characterises `Extension` from the end of the path: `p[k..]` is the
      extension exactly when it is a dot followed by characters that are
      neither dots nor slashes, and the last component of `p[..k]` holds a
      character that is not a dot. */
  lemma {:induction false} ExtensionIsSuffix(p: string, k: nat)
    requires k < |p| && p[k] == '.'
    requires forall i :: k < i < |p| ==> p[i] != '.' && p[i] != '/'
    requires HasName(p[..k])
    ensures Extension(p) == p[k..]
  {
    var sep := LastIndexOf(p, '/');
    assert LastIndexOf(p, '.') == k;
    LastIndexOfPrefix(p, k, '/');
    var j :| sep + 1 <= j < k && p[..k][j] != '.';
    assert p[j] != '.';
  }

  /** The converse direction: a non-empty extension is such a suffix. */
  lemma {:induction false} ExtensionShape(p: string)
    requires Extension(p) != []
    ensures var k := |p| - |Extension(p)|;
      0 <= k < |p| && p[k..] == Extension(p) && p[k] == '.' && HasName(p[..k])
  {
    var sep := LastIndexOf(p, '/');
    var dot := LastIndexOf(p, '.');
    assert dot > sep && HasNonDot(p, sep + 1, dot);
    LastIndexOfPrefix(p, dot, '/');
    var j :| sep + 1 <= j < dot && p[j] != '.';
    assert p[..dot][j] == p[j];
  }

  /** `posixpath.join(a, b)` for two components. */
  function Join(a: string, b: string): (r: string)
    ensures |b| > 0 && b[0] != '/' && |a| > 0 && a[|a| - 1] != '/' ==> r == a + "/" + b
  {
    if |b| > 0 && b[0] == '/' then b
    else if a == [] || a[|a| - 1] == '/' then a + b
    else a + "/" + b
  }

  /** `str.lower` on one character, for the ASCII range. */
  function LowerChar(c: char): (r: char)
    ensures 'a' <= r <= 'z' <==> ('a' <= c <= 'z' || 'A' <= c <= 'Z')
    ensures r == '.' <==> c == '.'
  {
    if 'A' <= c <= 'Z' then (c as int + 32) as char else c
  }

  function Lower(s: string): string {
    seq(|s|, i requires 0 <= i < |s| => LowerChar(s[i]))
  }
}
