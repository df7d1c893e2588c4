/** The string and path operations of Python that the converter applies to
    file names: str.endswith, str.rfind, and posixpath's splitext and
    basename (os.path on a POSIX system). */
module PathNames {

  /** posixpath's separator and extension separator. */
  const Sep: char := '/'
  const ExtSep: char := '.'

  /** str.endswith: a literal, case-sensitive suffix test. */
  predicate EndsWith(s: string, suffix: string) {
    |suffix| <= |s| && s[|s| - |suffix|..] == suffix
  }

  /** str.rfind for a single character: the last index holding c, or -1. */
  function LastIndexOf(s: string, c: char): (r: int)
    ensures -1 <= r < |s|
    ensures 0 <= r ==> s[r] == c
  {
    if |s| == 0 then -1
    else if s[|s| - 1] == c then |s| - 1
    else LastIndexOf(s[..|s| - 1], c)
  }

  /** LastIndexOf is -1 exactly when c does not occur, and no later
      position holds c. */
  lemma {:induction false} LastIndexOfIsLast(s: string, c: char)
    ensures LastIndexOf(s, c) == -1 <==> c !in s
    ensures forall j :: LastIndexOf(s, c) < j < |s| ==> s[j] != c
    decreases |s|
  {
    if |s| > 0 && s[|s| - 1] != c {
      var pre := s[..|s| - 1];
      assert s == pre + [s[|s| - 1]];
      LastIndexOfIsLast(pre, c);
    }
  }

  /** Some position lo <= i < hi of s holds a character other than '.'. */
  predicate HasNonDot(s: string, lo: int, hi: int)
    requires 0 <= lo && hi <= |s|
  {
    exists i :: lo <= i < hi && s[i] != ExtSep
  }

  /** posixpath.splitext: the root and the extension of a path. The
      extension starts at the last '.' of the final path component, unless
      everything in that component before the dot is dots, in which case
      there is no extension (so ".m4a" has none). */
  function Splitext(p: string): (string, string) {
    var sepIndex := LastIndexOf(p, Sep);
    var dotIndex := LastIndexOf(p, ExtSep);
    if dotIndex > sepIndex && HasNonDot(p, sepIndex + 1, dotIndex) then
      (p[..dotIndex], p[dotIndex..])
    else
      (p, "")
  }

  /** Root and extension put back together give the path; the extension is
      empty or one '.' followed by no '.' and no '/'. */
  lemma SplitextParts(p: string)
    ensures Splitext(p).0 + Splitext(p).1 == p
    ensures var ext := Splitext(p).1;
            ext == [] || (ext[0] == ExtSep && ExtSep !in ext[1..] && Sep !in ext)
  {
    var sepIndex := LastIndexOf(p, Sep);
    var dotIndex := LastIndexOf(p, ExtSep);
    if dotIndex > sepIndex && HasNonDot(p, sepIndex + 1, dotIndex) {
      LastIndexOfIsLast(p, Sep);
      LastIndexOfIsLast(p, ExtSep);
      var ext := p[dotIndex..];
      assert p[..dotIndex] + ext == p;
      forall j | 0 <= j < |ext| ensures ext[j] == p[dotIndex + j] && ext[j] != Sep {
      }
      forall j | 0 <= j < |ext[1..]| ensures ext[1..][j] != ExtSep {
        assert ext[1..][j] == p[dotIndex + 1 + j];
      }
    }
  }

  /** posixpath.basename: everything after the last '/'. */
  function Basename(p: string): string {
    p[LastIndexOf(p, Sep) + 1..]
  }

  /** The basename is a suffix of the path holding no '/', and is the
      whole path or follows a '/'. */
  lemma BasenameSuffix(p: string)
    ensures var b := Basename(p);
            && EndsWith(p, b) && Sep !in b
            && (b == p || p[|p| - |b| - 1] == Sep)
  {
    LastIndexOfIsLast(p, Sep);
    var b := Basename(p);
    assert forall j :: 0 <= j < |b| ==> b[j] == p[LastIndexOf(p, Sep) + 1 + j];
  }
}
