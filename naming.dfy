/**
 * Segment file names: `str(n).zfill(3)` as a sequence number and the name
 * `<dir>/<stem><NNN>.mp3` built from it.
 */
module Naming {
  import opened Paths

  predicate IsDigit(c: char)
  {
    '0' <= c <= '9'
  }

  predicate AllDigits(s: string)
  {
    forall k :: 0 <= k < |s| ==> IsDigit(s[k])
  }

  function DigitChar(d: nat): char
    requires d < 10
  {
    ('0' as int + d) as char
  }

  function DigitValue(c: char): nat
    requires IsDigit(c)
  {
    c as int - '0' as int
  }

  /** `str(n)`: the decimal digits of `n`, with no leading zero except for 0 itself. */
  function DecimalString(n: nat): (s: string)
    ensures 1 <= |s| && AllDigits(s)
    ensures n > 0 ==> s[0] != '0'
    ensures n < 10 ==> |s| == 1
    ensures n < 100 ==> |s| <= 2
    ensures n < 1000 ==> |s| <= 3
  {
    if n < 10 then [DigitChar(n)] else DecimalString(n / 10) + [DigitChar(n % 10)]
  }

  /** The number a string of decimal digits denotes; leading zeros count for nothing. */
  function DecimalValue(s: string): nat
    requires AllDigits(s)
  {
    if s == [] then 0 else 10 * DecimalValue(s[..|s| - 1]) + DigitValue(s[|s| - 1])
  }

  /** Reading back the digits of `str(n)` gives `n`. */
  lemma {:induction false} DecimalRoundTrip(n: nat)
    ensures DecimalValue(DecimalString(n)) == n
  {
    var s := DecimalString(n);
    if n >= 10 {
      DecimalRoundTrip(n / 10);
      assert s[..|s| - 1] == DecimalString(n / 10);
    }
  }

  function Zeros(k: nat): string
  {
    seq(k, _ => '0')
  }

  /** Zeros put in front of a digit string leave its value alone. */
  lemma {:induction false} LeadingZeros(k: nat, s: string)
    requires AllDigits(s)
    ensures AllDigits(Zeros(k) + s)
    ensures DecimalValue(Zeros(k) + s) == DecimalValue(s)
    decreases |s|, k
  {
    var z := Zeros(k) + s;
    if s == [] {
      assert z == Zeros(k);
      if k > 0 {
        assert z[..|z| - 1] == Zeros(k - 1) + [];
        LeadingZeros(k - 1, []);
      }
    } else {
      assert z[..|z| - 1] == Zeros(k) + s[..|s| - 1];
      LeadingZeros(k, s[..|s| - 1]);
    }
  }

  /** `s.zfill(width)` for a string of digits: zeros on the left up to `width` characters. */
  function ZeroFill(s: string, width: nat): (r: string)
    ensures |r| == if |s| < width then width else |s|
    ensures r[|r| - |s|..] == s
    ensures forall k :: 0 <= k < |r| - |s| ==> r[k] == '0'
  {
    if |s| < width then Zeros(width - |s|) + s else s
  }

  /** The sequence number of the `n`-th segment, `str(n).zfill(3)`. */
  function SequenceNumber(n: nat): (r: string)
    ensures AllDigits(r)
    ensures |r| >= 3
    ensures n < 1000 ==> |r| == 3
  {
    var s := DecimalString(n);
    LeadingZeros(if |s| < 3 then 3 - |s| else 0, s);
    ZeroFill(s, 3)
  }

  /** A sequence number reads back as the number it was made from. */
  lemma SequenceNumberRoundTrip(n: nat)
    ensures DecimalValue(SequenceNumber(n)) == n
  {
    var s := DecimalString(n);
    DecimalRoundTrip(n);
    LeadingZeros(if |s| < 3 then 3 - |s| else 0, s);
  }

  /** Different segments get different sequence numbers. */
  lemma SequenceNumberInjective(m: nat, n: nat)
    requires SequenceNumber(m) == SequenceNumber(n)
    ensures m == n
  {
    SequenceNumberRoundTrip(m);
    SequenceNumberRoundTrip(n);
  }

  /** The output directory: the input path without its extension. */
  function OutputDir(filename: string): (r: string)
    ensures |r| <= |filename| && filename[..|r|] == r
  {
    SplitExt(filename).0
  }

  /** The file name of segment `n` inside the output directory, without the directory. */
  function SegmentLeaf(filename: string, n: nat): string
  {
    SplitExt(Basename(filename)).0 + SequenceNumber(n) + ".mp3"
  }

  /** `os.path.join(new_dir, stem + str(n).zfill(3) + '.mp3')`. */
  function SegmentFileName(filename: string, n: nat): string
  {
    Join(OutputDir(filename), SegmentLeaf(filename, n))
  }

  /** The stem of an input file holds no separator. */
  lemma StemHasNoSeparator(filename: string)
    ensures NoSeparator(SplitExt(Basename(filename)).0)
  {
    var b := Basename(filename);
    var stem := SplitExt(b).0;
    assert b == stem + SplitExt(b).1;
    forall k | 0 <= k < |stem|
      ensures stem[k] != '/'
    {
      assert stem[k] == b[k] && b[k] in b;
    }
  }

  predicate NoSeparator(s: string)
  {
    forall k :: 0 <= k < |s| ==> s[k] != '/'
  }

  lemma NoSeparatorConcat(a: string, b: string)
    requires NoSeparator(a) && NoSeparator(b)
    ensures NoSeparator(a + b)
  {
    forall k | 0 <= k < |a + b|
      ensures (a + b)[k] != '/'
    {
      if k < |a| {
        assert (a + b)[k] == a[k];
      } else {
        assert (a + b)[k] == b[k - |a|];
      }
    }
  }

  lemma DigitsHaveNoSeparator(num: string)
    requires AllDigits(num)
    ensures NoSeparator(num)
  {
    forall k | 0 <= k < |num|
      ensures num[k] != '/'
    {
      assert IsDigit(num[k]);
    }
  }

  lemma Mp3SuffixHasNoSeparator()
    ensures NoSeparator(".mp3")
  {
    var e := ".mp3";
    assert e[0] == '.' && e[1] == 'm' && e[2] == 'p' && e[3] == '3';
  }

  /**
   * A stem with no separator, three or more digits and ".mp3" make a name
   * of seven or more characters with no separator.
   */
  lemma LeafShape(stem: string, num: string)
    requires NoSeparator(stem)
    requires |num| >= 3 && AllDigits(num)
    ensures |stem + num + ".mp3"| >= 7
    ensures NoSeparator(stem + num + ".mp3")
  {
    DigitsHaveNoSeparator(num);
    Mp3SuffixHasNoSeparator();
    NoSeparatorConcat(stem, num);
    NoSeparatorConcat(stem + num, ".mp3");
  }

  /** The leaf name holds no separator, so it is relative to the output directory. */
  lemma SegmentLeafRelative(filename: string, n: nat)
    ensures |SegmentLeaf(filename, n)| >= 7
    ensures NoSeparator(SegmentLeaf(filename, n))
  {
    StemHasNoSeparator(filename);
    LeafShape(SplitExt(Basename(filename)).0, SequenceNumber(n));
  }

  lemma MiddleOf(a: string, b: string, c: string)
    ensures (a + b + c)[|a|..|a + b + c| - |c|] == b
  {
  }

  /** Two leaf names of one input file are equal only for equal sequence numbers. */
  lemma SegmentLeafInjective(filename: string, m: nat, n: nat)
    requires SegmentLeaf(filename, m) == SegmentLeaf(filename, n)
    ensures m == n
  {
    var stem := SplitExt(Basename(filename)).0;
    MiddleOf(stem, SequenceNumber(m), ".mp3");
    MiddleOf(stem, SequenceNumber(n), ".mp3");
    SequenceNumberInjective(m, n);
  }

  /** Two segments of one input file get two different file names. */
  lemma SegmentFileNamesDistinct(filename: string, m: nat, n: nat)
    requires m != n
    ensures SegmentFileName(filename, m) != SegmentFileName(filename, n)
  {
    var x, y := SegmentLeaf(filename, m), SegmentLeaf(filename, n);
    if Join(OutputDir(filename), x) == Join(OutputDir(filename), y) {
      SegmentLeafRelative(filename, m);
      SegmentLeafRelative(filename, n);
      assert x[0] != '/' && y[0] != '/';
      JoinInjective(OutputDir(filename), x, y);
      SegmentLeafInjective(filename, m, n);
    }
  }

  /** Different segments of one input file get different paths. */
  lemma SegmentFileNamesInjective(filename: string)
    ensures forall m: nat, n: nat :: m != n ==> SegmentFileName(filename, m) != SegmentFileName(filename, n)
  {
    forall m: nat, n: nat | m != n
      ensures SegmentFileName(filename, m) != SegmentFileName(filename, n)
    {
      SegmentFileNamesDistinct(filename, m, n);
    }
  }

  /**
   * A directory joined with a relative name that holds no separator: the
   * last separator of the result lies at most one past the directory part,
   * and the result is at least as long as both parts.
   */
  lemma JoinedParent(dir: string, x: string)
    requires |x| > 0 && NoSeparator(x)
    ensures LastIndexOf(Join(dir, x), '/') <= |dir|
    ensures |Join(dir, x)| >= |dir| + |x|
  {
    assert x[0] != '/';
    var q := Join(dir, x);
    var pre := if dir == [] || dir[|dir| - 1] == '/' then dir else dir + "/";
    assert q == pre + x;
  }

  /**
   * The parent path of a segment file, what precedes its last separator,
   * is shorter than the path of every segment file of the same input.
   */
  lemma SegmentParentsShort(filename: string)
    ensures forall m: nat, n: nat :: LastIndexOf(SegmentFileName(filename, m), '/') < |SegmentFileName(filename, n)|
  {
    forall m: nat, n: nat
      ensures LastIndexOf(SegmentFileName(filename, m), '/') < |SegmentFileName(filename, n)|
    {
      SegmentLeafRelative(filename, m);
      SegmentLeafRelative(filename, n);
      JoinedParent(OutputDir(filename), SegmentLeaf(filename, m));
      JoinedParent(OutputDir(filename), SegmentLeaf(filename, n));
    }
  }

  /** Joining a longer relative name appends the extra characters. */
  lemma JoinAppend(dir: string, x: string, t: string)
    requires |x| > 0 && x[0] != '/'
    ensures Join(dir, x + t) == Join(dir, x) + t
  {
    assert (x + t)[0] == x[0];
    if dir == [] || dir[|dir| - 1] == '/' {
      assert dir + (x + t) == (dir + x) + t;
    } else {
      assert dir + "/" + (x + t) == (dir + "/" + x) + t;
    }
  }

  /** The last component of a directory joined with a separator-free name is that name. */
  lemma BasenameOfJoin(dir: string, x: string)
    requires |x| > 0
    requires NoSeparator(x)
    ensures Basename(Join(dir, x)) == x
  {
    var q := Join(dir, x);
    var b := Basename(q);
    var pre := if dir == [] || dir[|dir| - 1] == '/' then dir else dir + "/";
    assert q == pre + x;
    assert q[|q| - |x|..] == x;
    assert |q| > |x| ==> q[|q| - |x| - 1] == '/';
  }

  lemma LowerMp3()
    ensures LowerAscii(".mp3") == ".mp3"
  {
  }

  /** A separator-free name that is not all dots, joined to a directory and given ".mp3", passes the `.mp3` test. */
  lemma JoinedMp3(dir: string, body: string)
    requires |body| > 0 && NotAllDots(body)
    requires NoSeparator(body)
    ensures IsMp3(Join(dir, body + ".mp3"))
  {
    var q := Join(dir, body);
    var p := Join(dir, body + ".mp3");
    JoinAppend(dir, body, ".mp3");
    assert p == q + ".mp3";
    assert p[..|p| - 4] == q;
    assert p[|p| - 4..] == ".mp3";
    BasenameOfJoin(dir, body);
    LowerMp3();
    assert |p| >= 4 && LowerAscii(p[|p| - 4..]) == ".mp3" && NotAllDots(Basename(p[..|p| - 4]));
    Mp3Characterization(p);
  }

  /** A stem followed by a sequence number is a non-empty name that holds no separator and not only dots. */
  lemma NumberedBody(stem: string, num: string)
    requires NoSeparator(stem)
    requires |num| >= 3 && AllDigits(num)
    ensures |stem + num| > 0 && NoSeparator(stem + num) && NotAllDots(stem + num)
  {
    DigitsHaveNoSeparator(num);
    NoSeparatorConcat(stem, num);
    assert (stem + num)[|stem|] == num[0] && IsDigit(num[0]);
  }

  /** Every segment file itself passes the `.mp3` test. */
  lemma SegmentFileIsMp3(filename: string, n: nat)
    ensures IsMp3(SegmentFileName(filename, n))
  {
    var stem := SplitExt(Basename(filename)).0;
    var body := stem + SequenceNumber(n);
    StemHasNoSeparator(filename);
    NumberedBody(stem, SequenceNumber(n));
    assert SegmentLeaf(filename, n) == body + ".mp3";
    JoinedMp3(OutputDir(filename), body);
  }

  /**
   * A name with neither separators nor dots: "<stem>.mp3" splits into
   * "<stem>" and ".mp3", and is its own last component.
   */
  lemma PlainFileParts(stem: string)
    requires |stem| > 0 && NoSeparator(stem)
    requires forall k :: 0 <= k < |stem| ==> stem[k] != '.'
    ensures SplitExt(stem + ".mp3") == (stem, ".mp3")
    ensures Basename(stem + ".mp3") == stem + ".mp3"
  {
    var p := stem + ".mp3";
    var m := |stem|;
    assert forall k :: 0 <= k < m ==> p[k] == stem[k];
    assert p[m] == '.' && p[m + 1] == 'm' && p[m + 2] == 'p' && p[m + 3] == '3';
    var sep := LastIndexOf(p, '/');
    var dot := LastIndexOf(p, '.');
    assert sep == -1;
    assert dot == m;
    assert p[0..m] == stem;
    assert stem[0] != '.';
    assert HasExtension(p, sep, dot);
  }

  /**
   * For an input "<stem>.mp3" in the current directory, where the stem holds
   * neither separators nor dots, segment n is "<stem>/<stem><NNN>.mp3".
   */
  lemma PlainFileSegmentName(stem: string, n: nat)
    requires |stem| > 0 && NoSeparator(stem)
    requires forall k :: 0 <= k < |stem| ==> stem[k] != '.'
    ensures OutputDir(stem + ".mp3") == stem
    ensures SegmentFileName(stem + ".mp3", n) == stem + "/" + stem + SequenceNumber(n) + ".mp3"
  {
    PlainFileParts(stem);
    assert SegmentLeaf(stem + ".mp3", n) == stem + SequenceNumber(n) + ".mp3";
    PlainLeafJoin(stem, SequenceNumber(n));
  }

  /** Joining "<stem><num>.mp3" to the directory "<stem>" puts one separator between them. */
  lemma PlainLeafJoin(stem: string, num: string)
    requires |stem| > 0 && NoSeparator(stem)
    ensures Join(stem, stem + num + ".mp3") == stem + "/" + stem + num + ".mp3"
  {
    var leaf := stem + num + ".mp3";
    assert leaf[0] == stem[0] != '/';
    assert stem[|stem| - 1] != '/';
    assert stem + "/" + leaf == stem + "/" + stem + num + ".mp3";
  }

  /** "song" holds neither separators nor dots. */
  lemma SongIsPlain(stem: string)
    requires stem == "song"
    ensures |stem| > 0 && NoSeparator(stem)
    ensures forall k :: 0 <= k < |stem| ==> stem[k] != '.'
  {
    assert stem[0] == 's' && stem[1] == 'o' && stem[2] == 'n' && stem[3] == 'g';
  }

  /** The segment files of "song.mp3" are "song/song001.mp3", "song/song002.mp3", and so on. */
  lemma SongSegmentNames(input: string, n: nat)
    requires input == "song.mp3"
    ensures OutputDir(input) == "song"
    ensures SegmentFileName(input, n) == "song/song" + SequenceNumber(n) + ".mp3"
  {
    var stem := input[..4];
    assert stem == "song";
    SongIsPlain(stem);
    assert input == stem + ".mp3";
    PlainFileSegmentName(stem, n);
    SongDirectoryPrefix(stem);
  }

  lemma SongDirectoryPrefix(stem: string)
    requires stem == "song"
    ensures stem + "/" + stem == "song/song"
  {
    var t := stem + "/" + stem;
    assert |t| == 9;
    assert t[0] == 's' && t[1] == 'o' && t[2] == 'n' && t[3] == 'g' && t[4] == '/';
    assert t[5] == 's' && t[6] == 'o' && t[7] == 'n' && t[8] == 'g';
  }

  /** The first sequence numbers: "001", "002", "003". */
  lemma FirstSequenceNumbers()
    ensures SequenceNumber(1) == "001" && SequenceNumber(2) == "002" && SequenceNumber(3) == "003"
  {
  }
}
