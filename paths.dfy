/**
 * The path operations of Python's posixpath that mp3split.py relies on:
 * `os.path.splitext`, `os.path.basename`, `os.path.join`, `str.lower`, and
 * the `.mp3` test built from them. Paths are strings and '/' is the only
 * separator.
 */
module Paths {

  /** Index of the last occurrence of `c` among the first `n` characters of `s`, or -1 when there is none. */
  function LastBefore(s: string, c: char, n: nat): (r: int)
    requires n <= |s|
    ensures -1 <= r < n
    ensures r >= 0 ==> s[r] == c
    ensures forall k :: r < k < n ==> s[k] != c
  {
    if n == 0 then -1
    else if s[n - 1] == c then n - 1
    else LastBefore(s, c, n - 1)
  }

  /** Index of the last occurrence of `c` in `s`, or -1 when there is none (`str.rfind`). */
  function LastIndexOf(s: string, c: char): (r: int)
    ensures -1 <= r < |s|
    ensures r >= 0 ==> s[r] == c
    ensures forall k :: r < k < |s| ==> s[k] != c
  {
    LastBefore(s, c, |s|)
  }

  /** Dropping a tail that holds no `c` does not move the last `c`. */
  lemma LastIndexOfPrefix(s: string, n: nat, c: char)
    requires n <= |s|
    requires forall k :: n <= k < |s| ==> s[k] != c
    ensures LastIndexOf(s[..n], c) == LastIndexOf(s, c)
  {
  }

  /** Some character of `s` is not a dot. */
  predicate NotAllDots(s: string)
  {
    exists k :: 0 <= k < |s| && s[k] != '.'
  }

  /** The dot at `dot` follows the last separator and something other than dots precedes it. */
  predicate HasExtension(p: string, sep: int, dot: int)
    requires -1 <= sep && dot < |p|
  {
    dot > sep && NotAllDots(p[sep + 1..dot])
  }

  /**
   * `os.path.splitext`: the extension starts at the last dot of the last
   * path component, unless everything before that dot in the component is
   * dots (".profile", "..mp3" have no extension).
   */
  function SplitExt(p: string): (r: (string, string))
    ensures r.0 + r.1 == p
    ensures r.1 != [] ==> r.1[0] == '.'
    ensures forall k :: 1 <= k < |r.1| ==> r.1[k] != '.'
    ensures forall k :: 0 <= k < |r.1| ==> r.1[k] != '/'
  {
    var sep := LastIndexOf(p, '/');
    var dot := LastIndexOf(p, '.');
    if HasExtension(p, sep, dot) then
      (p[..dot], p[dot..])
    else
      (p, [])
  }

  /** `os.path.basename`: everything after the last '/'. */
  function Basename(p: string): (r: string)
    ensures '/' !in r
    ensures |r| <= |p| && p[|p| - |r|..] == r
    ensures |r| < |p| ==> p[|p| - |r| - 1] == '/'
  {
    p[LastIndexOf(p, '/') + 1..]
  }

  /** `os.path.join(a, b)` for two components. */
  function Join(a: string, b: string): string
  {
    if |b| > 0 && b[0] == '/' then b
    else if a == [] || a[|a| - 1] == '/' then a + b
    else a + "/" + b
  }

  /** A relative name joined to a directory can be read back from the result. */
  lemma JoinInjective(a: string, x: string, y: string)
    requires x == [] || x[0] != '/'
    requires y == [] || y[0] != '/'
    requires Join(a, x) == Join(a, y)
    ensures x == y
  {
    var pre := if a == [] || a[|a| - 1] == '/' then a else a + "/";
    assert Join(a, x) == pre + x && Join(a, y) == pre + y;
    assert x == (pre + x)[|pre|..];
    assert y == (pre + y)[|pre|..];
  }

  /** `str.lower` on one character: ASCII letters only. */
  function Lower(c: char): char
  {
    if 'A' <= c <= 'Z' then (c as int + 32) as char else c
  }

  /** `str.lower` applied character by character. */
  function LowerAscii(s: string): string
  {
    seq(|s|, k requires 0 <= k < |s| => Lower(s[k]))
  }

  /** The test `os.path.splitext(p)[1].lower() == ".mp3"`. */
  predicate IsMp3(p: string)
  {
    LowerAscii(SplitExt(p).1) == ".mp3"
  }

  /** A path that passes the `.mp3` test ends in ".mp3" in some letter case, after something other than dots. */
  lemma Mp3Only(p: string)
    requires IsMp3(p)
    ensures |p| >= 4 && LowerAscii(p[|p| - 4..]) == ".mp3" && NotAllDots(Basename(p[..|p| - 4]))
  {
    var sep := LastIndexOf(p, '/');
    var dot := LastIndexOf(p, '.');
    var e := SplitExt(p).1;
    assert |e| == 4;
    assert dot > sep && NotAllDots(p[sep + 1..dot]) && e == p[dot..];
    assert dot == |p| - 4;
    LastIndexOfPrefix(p, |p| - 4, '/');
    assert Basename(p[..|p| - 4]) == p[sep + 1..dot];
  }

  /**
   * A four-character tail that lowers to ".mp3" is a dot and then three
   * characters that are neither dots nor separators.
   */
  lemma Mp3Tail(p: string, n: nat)
    requires n + 4 == |p| && LowerAscii(p[n..]) == ".mp3"
    ensures p[n] == '.' && p[n] != '/'
    ensures forall k :: n < k < |p| ==> p[k] != '.' && p[k] != '/'
  {
    var t := p[n..];
    assert LowerAscii(t)[0] == Lower(p[n]) && LowerAscii(t)[1] == Lower(p[n + 1]);
    assert LowerAscii(t)[2] == Lower(p[n + 2]) && LowerAscii(t)[3] == Lower(p[n + 3]);
  }

  /** A path ending in ".mp3" in some letter case, after something other than dots, passes the `.mp3` test. */
  lemma Mp3If(p: string)
    requires |p| >= 4 && LowerAscii(p[|p| - 4..]) == ".mp3" && NotAllDots(Basename(p[..|p| - 4]))
    ensures IsMp3(p)
  {
    var n := |p| - 4;
    Mp3Tail(p, n);
    LastIndexOfPrefix(p, n, '/');
    var sep := LastIndexOf(p, '/');
    assert LastIndexOf(p, '.') == n;
    assert Basename(p[..n]) == p[sep + 1..n];
  }

  /**
   * A path passes the `.mp3` test exactly when its last four characters are
   * ".mp3" in any letter case and the last component holds something other
   * than dots before them.
   */
  lemma Mp3Characterization(p: string)
    ensures IsMp3(p) <==>
      |p| >= 4 && LowerAscii(p[|p| - 4..]) == ".mp3" && NotAllDots(Basename(p[..|p| - 4]))
  {
    if IsMp3(p) {
      Mp3Only(p);
    }
    if |p| >= 4 && LowerAscii(p[|p| - 4..]) == ".mp3" && NotAllDots(Basename(p[..|p| - 4])) {
      Mp3If(p);
    }
  }

  /** The output directory of an `.mp3` file is the path without its four-character extension. */
  lemma Mp3Stem(p: string)
    requires IsMp3(p)
    ensures |p| >= 4 && SplitExt(p).0 == p[..|p| - 4]
    ensures SplitExt(p).0 != p
  {
    Mp3Characterization(p);
    assert |SplitExt(p).1| == 4;
  }

  /** In a directory "music" holding a.mp3, b.wav and c.MP3, the entries a.mp3 and c.MP3 qualify. */
  lemma Mp3Accepted()
    ensures IsMp3("music/a.mp3") && IsMp3("music/c.MP3")
  {
    var a, c := "music/a.mp3", "music/c.MP3";
    assert a[..7] == "music/a" && c[..7] == "music/c";
    assert Basename("music/a") == "a" && Basename("music/c") == "c";
    assert "a"[0] != '.' && "c"[0] != '.';
    assert LowerAscii(a[7..]) == ".mp3";
    assert LowerAscii(c[7..]) == ".mp3" by {
      assert c[7..] == ".MP3" && Lower('M') == 'm' && Lower('P') == 'p';
    }
    Mp3If(a);
    Mp3If(c);
  }

  /** In that directory, b.wav does not qualify, and neither would a file named ".mp3". */
  lemma Mp3Rejected()
    ensures !IsMp3("music/b.wav") && !IsMp3("music/.mp3")
  {
    var b, d := "music/b.wav", "music/.mp3";
    assert b[5] == '/' && b[7] == '.' && d[5] == '/' && d[6] == '.';
    assert LastIndexOf(b, '/') == 5 && LastIndexOf(b, '.') == 7;
    assert LastIndexOf(d, '/') == 5 && LastIndexOf(d, '.') == 6;
    assert b[6..7][0] != '.' && b[7..] == ".wav";
    assert !NotAllDots(d[6..6]);
    assert SplitExt(b).1 == ".wav" && SplitExt(d).1 == [];
    assert LowerAscii(".wav")[1] == 'w';
  }
}
