/**
 * `create_new_dir` and `sequential_split`: decode one file, make its output
 * directory, then walk the track in steps of one duration and export each
 * slice to its numbered file, honouring the overwrite flag.
 */
module Splitter {
  import opened Paths
  import opened Naming
  import opened Segmentation
  import opened FileSystem

  /**
   * What pydub does on this machine: the length in milliseconds of every
   * file it can decode (a file missing here fails to decode), and the paths
   * its export cannot write.
   */
  datatype Codec = Codec(lengths: map<string, nat>, unwritable: set<string>)

  /** The reasons the program gives up and exits with status 1. */
  datatype Failure =
    | DecodeFailed(file: string)
    | ExportFailed(file: string)
    | InvalidDuration
    | MissingPath(path: string)
    | UnsupportedExtension(ext: string)

  datatype Status = Completed | Fatal(failure: Failure)

  /** The process exit code of a run that ends with `s`. */
  function ExitCode(s: Status): int
  {
    if s.Completed? then 0 else 1
  }

  /** One file the split will produce: its path and the range of the track it holds. */
  datatype Target = Target(name: string, segment: Segment)

  /** The files of `filename`'s split, in loop order: segment k goes to sequence number k + 1. */
  function Targets(filename: string, length: nat, duration: nat): seq<Target>
    requires duration > 0
  {
    var p := Plan(length, duration);
    seq(|p|, k requires 0 <= k < |p| => Target(SegmentFileName(filename, k + 1), p[k]))
  }

  function Names(ts: seq<Target>): set<string>
  {
    set k | 0 <= k < |ts| :: ts[k].name
  }

  predicate Distinct(ts: seq<Target>)
  {
    forall j, k :: 0 <= j < k < |ts| ==> ts[j].name != ts[k].name
  }

  /**
   * The targets are as many as the announced file count, numbered 1, 2, ...
   * in loop order, pairwise distinct, and every one is an `.mp3` path.
   */
  lemma TargetsShape(filename: string, length: nat, duration: nat)
    requires duration > 0
    ensures |Targets(filename, length, duration)| == FileCount(length, duration)
    ensures forall k :: 0 <= k < |Targets(filename, length, duration)| ==>
      Targets(filename, length, duration)[k].name == SegmentFileName(filename, k + 1)
    ensures Distinct(Targets(filename, length, duration))
    ensures forall n :: n in Names(Targets(filename, length, duration)) ==> IsMp3(n)
  {
    PlanLength(length, duration);
    TargetsDistinct(filename, length, duration);
    TargetsAreMp3(filename, length, duration);
  }

  lemma TargetsDistinct(filename: string, length: nat, duration: nat)
    requires duration > 0
    ensures Distinct(Targets(filename, length, duration))
  {
    SegmentFileNamesInjective(filename);
    TargetNames(filename, length, duration);
    NumberedDistinct((n: nat) => SegmentFileName(filename, n), Targets(filename, length, duration));
  }

  /** Target k of a split is the path with sequence number k + 1. */
  lemma TargetNames(filename: string, length: nat, duration: nat)
    requires duration > 0
    ensures forall k :: 0 <= k < |Targets(filename, length, duration)| ==>
      Targets(filename, length, duration)[k].name == SegmentFileName(filename, k + 1)
  {
  }

  /** Targets named by an injective numbering, target k by number k + 1, have distinct paths. */
  lemma NumberedDistinct(name: nat -> string, ts: seq<Target>)
    requires forall m: nat, n: nat :: m != n ==> name(m) != name(n)
    requires forall k :: 0 <= k < |ts| ==> ts[k].name == name(k + 1)
    ensures Distinct(ts)
  {
    forall j, k | 0 <= j < k < |ts|
      ensures ts[j].name != ts[k].name
    {
      assert ts[j].name == name(j + 1) && ts[k].name == name(k + 1);
    }
  }

  lemma TargetsAreMp3(filename: string, length: nat, duration: nat)
    requires duration > 0
    ensures forall n :: n in Names(Targets(filename, length, duration)) ==> IsMp3(n)
  {
    var ts := Targets(filename, length, duration);
    forall k | 0 <= k < |ts|
      ensures IsMp3(ts[k].name)
    {
      SegmentFileIsMp3(filename, k + 1);
    }
  }

  /**
   * The paths an export of `ts` cannot write: the encoder's unwritable
   * paths, the directories, and each target whose parent path is a
   * regular file of `files`.
   */
  function Blocked(unwritable: set<string>, dirs: set<string>, files: map<string, Contents>, ts: seq<Target>)
    : (r: set<string>)
    ensures forall k :: 0 <= k < |ts| ==>
      (ts[k].name in r <==> ts[k].name in unwritable || ts[k].name in dirs || UnderFile(files, ts[k].name))
  {
    var under := set n | n in Names(ts) && UnderFile(files, n);
    assert forall k :: 0 <= k < |ts| ==> ts[k].name in Names(ts);
    unwritable + dirs + under
  }

  /** The parent path of every target, what precedes its last '/', is shorter than every target's path. */
  predicate ParentsOutside(ts: seq<Target>)
  {
    forall j, k :: 0 <= j < |ts| && 0 <= k < |ts| ==> LastIndexOf(ts[j].name, '/') < |ts[k].name|
  }

  /** No target of a split is created inside another target, so the writes never change whether a target's parent is a file. */
  lemma TargetsParentsOutside(filename: string, length: nat, duration: nat)
    requires duration > 0
    ensures ParentsOutside(Targets(filename, length, duration))
  {
    SegmentParentsShort(filename);
    TargetNames(filename, length, duration);
    NumberedParents((n: nat) => SegmentFileName(filename, n), Targets(filename, length, duration));
  }

  /** Targets named by a numbering whose parent paths are shorter than all its paths keep their parents outside. */
  lemma NumberedParents(name: nat -> string, ts: seq<Target>)
    requires forall m: nat, n: nat :: LastIndexOf(name(m), '/') < |name(n)|
    requires forall k :: 0 <= k < |ts| ==> ts[k].name == name(k + 1)
    ensures ParentsOutside(ts)
  {
    forall j, k | 0 <= j < |ts| && 0 <= k < |ts|
      ensures LastIndexOf(ts[j].name, '/') < |ts[k].name|
    {
      assert ts[j].name == name(j + 1) && ts[k].name == name(k + 1);
    }
  }

  /**
   * Files that differ from `files0` only by added targets agree with it on
   * whether a target's parent path is a regular file.
   */
  lemma UnderFileStable(files0: map<string, Contents>, files: map<string, Contents>, ts: seq<Target>, k: int)
    requires ParentsOutside(ts)
    requires files0.Keys <= files.Keys <= files0.Keys + Names(ts)
    requires 0 <= k < |ts|
    ensures UnderFile(files, ts[k].name) <==> UnderFile(files0, ts[k].name)
  {
  }

  /**
   * The effect of the loop's writes on the files, target by target: an
   * existing target is skipped unless `overwrite` is set; otherwise it is
   * exported, and the first export that fails (its path is in `blocked`)
   * ends the run.
   */
  function WriteAll(files: map<string, Contents>, source: string, ts: seq<Target>, overwrite: bool,
                    blocked: set<string>): (map<string, Contents>, Status)
    decreases |ts|
  {
    if ts == [] then (files, Completed)
    else
      var t := ts[0];
      if t.name in files && !overwrite then WriteAll(files, source, ts[1..], overwrite, blocked)
      else if t.name in blocked then (files, Fatal(ExportFailed(t.name)))
      else WriteAll(files[t.name := Encoded(source, t.segment)], source, ts[1..], overwrite, blocked)
  }

  lemma NamesTail(ts: seq<Target>)
    requires ts != []
    ensures Names(ts) == {ts[0].name} + Names(ts[1..])
  {
    forall n | n in Names(ts)
      ensures n in {ts[0].name} + Names(ts[1..])
    {
      var k :| 0 <= k < |ts| && ts[k].name == n;
      if k > 0 {
        assert ts[1..][k - 1].name == n;
      }
    }
    forall n | n in Names(ts[1..])
      ensures n in Names(ts)
    {
      var k :| 0 <= k < |ts[1..]| && ts[1..][k].name == n;
      assert ts[k + 1].name == n;
    }
  }

  /**
   * The writes touch nothing but the targets: no file disappears, the only
   * new files are targets, and every file that is not a target keeps its
   * contents.
   */
  lemma {:induction false} WriteAllFrame(files: map<string, Contents>, source: string, ts: seq<Target>,
                                         overwrite: bool, blocked: set<string>)
    ensures files.Keys <= WriteAll(files, source, ts, overwrite, blocked).0.Keys <= files.Keys + Names(ts)
    ensures forall n :: n in files && n !in Names(ts) ==>
      WriteAll(files, source, ts, overwrite, blocked).0[n] == files[n]
    decreases |ts|
  {
    if ts != [] {
      NamesTail(ts);
      var t := ts[0];
      if t.name in files && !overwrite {
        WriteAllFrame(files, source, ts[1..], overwrite, blocked);
      } else if t.name !in blocked {
        WriteAllFrame(files[t.name := Encoded(source, t.segment)], source, ts[1..], overwrite, blocked);
      }
    }
  }

  /** Without `overwrite`, every file that existed before keeps its contents. */
  lemma {:induction false} WriteAllKeepsExisting(files: map<string, Contents>, source: string, ts: seq<Target>,
                                                 blocked: set<string>)
    ensures forall n :: n in files ==>
      n in WriteAll(files, source, ts, false, blocked).0 &&
      WriteAll(files, source, ts, false, blocked).0[n] == files[n]
    decreases |ts|
  {
    if ts != [] {
      var t := ts[0];
      if t.name in files {
        WriteAllKeepsExisting(files, source, ts[1..], blocked);
      } else if t.name !in blocked {
        var files' := files[t.name := Encoded(source, t.segment)];
        WriteAllKeepsExisting(files', source, ts[1..], blocked);
        assert forall n :: n in files ==> n in files' && files'[n] == files[n];
      }
    }
  }

  /** Target k has to be exported: it did not exist, or `overwrite` is set. */
  predicate MustExport(files: map<string, Contents>, ts: seq<Target>, overwrite: bool, k: int)
    requires 0 <= k < |ts|
  {
    overwrite || ts[k].name !in files
  }

  /** Target k has to be exported and its export fails. */
  predicate Blocks(files: map<string, Contents>, ts: seq<Target>, overwrite: bool, blocked: set<string>, k: int)
  {
    0 <= k < |ts| && MustExport(files, ts, overwrite, k) && ts[k].name in blocked
  }

  /** Target k is the first, in loop order, whose export fails. */
  predicate FirstBlock(files: map<string, Contents>, ts: seq<Target>, overwrite: bool, blocked: set<string>, k: int)
  {
    Blocks(files, ts, overwrite, blocked, k) && forall j :: 0 <= j < k ==> !Blocks(files, ts, overwrite, blocked, j)
  }

  /**
   * For distinct targets, the run completes exactly when no target that has
   * to be exported is blocked.
   */
  lemma {:induction false} WriteAllCompletes(files: map<string, Contents>, source: string, ts: seq<Target>,
                                             overwrite: bool, blocked: set<string>)
    requires Distinct(ts)
    ensures WriteAll(files, source, ts, overwrite, blocked).1 == Completed <==>
      forall k :: 0 <= k < |ts| ==> !Blocks(files, ts, overwrite, blocked, k)
    decreases |ts|
  {
    if ts != [] {
      var t, rest := ts[0], ts[1..];
      assert Distinct(rest);
      assert forall k :: 0 < k < |ts| ==> ts[k] == rest[k - 1];
      if t.name in files && !overwrite {
        assert !Blocks(files, ts, overwrite, blocked, 0);
        WriteAllCompletes(files, source, rest, overwrite, blocked);
        assert forall k :: 0 < k < |ts| ==>
          (Blocks(files, ts, overwrite, blocked, k) <==> Blocks(files, rest, overwrite, blocked, k - 1));
        assert forall j :: 0 <= j < |rest| ==>
          (Blocks(files, rest, overwrite, blocked, j) <==> Blocks(files, ts, overwrite, blocked, j + 1));
      } else if t.name !in blocked {
        assert !Blocks(files, ts, overwrite, blocked, 0);
        var files' := files[t.name := Encoded(source, t.segment)];
        WriteAllCompletes(files', source, rest, overwrite, blocked);
        assert forall k :: 0 < k < |ts| ==> ts[k].name != t.name;
        assert forall k :: 0 < k < |ts| ==>
          (Blocks(files, ts, overwrite, blocked, k) <==> Blocks(files', rest, overwrite, blocked, k - 1));
        assert forall j :: 0 <= j < |rest| ==>
          (Blocks(files', rest, overwrite, blocked, j) <==> Blocks(files, ts, overwrite, blocked, j + 1));
      } else {
        assert Blocks(files, ts, overwrite, blocked, 0);
      }
    }
  }

  /**
   * For distinct targets, a completed run leaves every target that had to
   * be exported holding its segment, and every other target with its old
   * contents.
   */
  lemma {:induction false} WriteAllWrites(files: map<string, Contents>, source: string, ts: seq<Target>,
                                          overwrite: bool, blocked: set<string>)
    requires Distinct(ts)
    ensures WriteAll(files, source, ts, overwrite, blocked).1 == Completed ==>
      forall k :: 0 <= k < |ts| ==>
        ts[k].name in WriteAll(files, source, ts, overwrite, blocked).0 &&
        WriteAll(files, source, ts, overwrite, blocked).0[ts[k].name] ==
          if MustExport(files, ts, overwrite, k) then Encoded(source, ts[k].segment) else files[ts[k].name]
    decreases |ts|
  {
    if ts != [] {
      NamesTail(ts);
      var t, rest := ts[0], ts[1..];
      assert Distinct(rest);
      assert t.name !in Names(rest);
      assert forall k :: 0 < k < |ts| ==> ts[k] == rest[k - 1];
      if t.name in files && !overwrite {
        WriteAllWrites(files, source, rest, overwrite, blocked);
        WriteAllFrame(files, source, rest, overwrite, blocked);
      } else if t.name !in blocked {
        var files' := files[t.name := Encoded(source, t.segment)];
        WriteAllWrites(files', source, rest, overwrite, blocked);
        WriteAllFrame(files', source, rest, overwrite, blocked);
        assert forall k :: 0 < k < |ts| ==> (ts[k].name in files' <==> ts[k].name in files);
        assert forall k :: 0 < k < |ts| && ts[k].name in files ==> files'[ts[k].name] == files[ts[k].name];
      }
    }
  }

  /**
   * A run that does not complete fails on the export of a target whose
   * path is blocked.
   */
  lemma {:induction false} WriteAllFailure(files: map<string, Contents>, source: string, ts: seq<Target>,
                                           overwrite: bool, blocked: set<string>)
    ensures WriteAll(files, source, ts, overwrite, blocked).1.Fatal? ==>
      WriteAll(files, source, ts, overwrite, blocked).1.failure.ExportFailed? &&
      WriteAll(files, source, ts, overwrite, blocked).1.failure.file in blocked * Names(ts)
    decreases |ts|
  {
    if ts != [] {
      NamesTail(ts);
      var t := ts[0];
      if t.name in files && !overwrite {
        WriteAllFailure(files, source, ts[1..], overwrite, blocked);
      } else if t.name !in blocked {
        WriteAllFailure(files[t.name := Encoded(source, t.segment)], source, ts[1..], overwrite, blocked);
      }
    }
  }

  /**
   * The loop stops at the first target whose export fails and undoes
   * nothing: the files are those left by the targets before it, and the
   * failure names it.
   */
  lemma {:induction false} WriteAllStopsAtFirst(files: map<string, Contents>, source: string, ts: seq<Target>,
                                                overwrite: bool, blocked: set<string>, k: nat)
    requires Distinct(ts)
    requires FirstBlock(files, ts, overwrite, blocked, k)
    ensures WriteAll(files, source, ts, overwrite, blocked) ==
      (WriteAll(files, source, ts[..k], overwrite, blocked).0, Fatal(ExportFailed(ts[k].name)))
    decreases k
  {
    var t, rest := ts[0], ts[1..];
    if k == 0 {
      assert ts[..k] == [];
    } else {
      assert Distinct(rest);
      assert forall j :: 0 < j < |ts| ==> ts[j] == rest[j - 1];
      assert ts[..k][0] == t && ts[..k][1..] == rest[..k - 1];
      assert !Blocks(files, ts, overwrite, blocked, 0);
      var files' := if t.name in files && !overwrite then files else files[t.name := Encoded(source, t.segment)];
      assert forall j :: 0 < j < |ts| ==> ts[j].name != t.name;
      assert forall j :: 0 < j < |ts| ==>
        (Blocks(files, ts, overwrite, blocked, j) <==> Blocks(files', rest, overwrite, blocked, j - 1));
      assert FirstBlock(files', rest, overwrite, blocked, k - 1) by {
        assert Blocks(files, ts, overwrite, blocked, k);
        forall j | 0 <= j < k - 1
          ensures !Blocks(files', rest, overwrite, blocked, j)
        {
          assert !Blocks(files, ts, overwrite, blocked, j + 1);
        }
      }
      WriteAllStopsAtFirst(files', source, rest, overwrite, blocked, k - 1);
    }
  }

  /** Some target blocks exactly when a first one does. */
  lemma {:induction false} FirstBlockExists(files: map<string, Contents>, ts: seq<Target>, overwrite: bool,
                                            blocked: set<string>, k: nat)
    requires Blocks(files, ts, overwrite, blocked, k)
    ensures exists m :: 0 <= m <= k && FirstBlock(files, ts, overwrite, blocked, m)
    decreases k
  {
    if exists j :: 0 <= j < k && Blocks(files, ts, overwrite, blocked, j) {
      var j :| 0 <= j < k && Blocks(files, ts, overwrite, blocked, j);
      FirstBlockExists(files, ts, overwrite, blocked, j);
    } else {
      assert FirstBlock(files, ts, overwrite, blocked, k);
    }
  }

  /**
   * For distinct targets, a run that does not complete stopped at the first
   * blocked target that had to be exported, with the files the targets
   * before it left.
   */
  lemma WriteAllFatal(files: map<string, Contents>, source: string, ts: seq<Target>, overwrite: bool,
                      blocked: set<string>)
    requires Distinct(ts)
    ensures WriteAll(files, source, ts, overwrite, blocked).1 != Completed ==>
      exists k :: 0 <= k < |ts| && FirstBlock(files, ts, overwrite, blocked, k) &&
        WriteAll(files, source, ts, overwrite, blocked) ==
          (WriteAll(files, source, ts[..k], overwrite, blocked).0, Fatal(ExportFailed(ts[k].name)))
  {
    if WriteAll(files, source, ts, overwrite, blocked).1 != Completed {
      WriteAllCompletes(files, source, ts, overwrite, blocked);
      var k :| 0 <= k < |ts| && Blocks(files, ts, overwrite, blocked, k);
      FirstBlockExists(files, ts, overwrite, blocked, k);
      var m :| 0 <= m <= k && FirstBlock(files, ts, overwrite, blocked, m);
      WriteAllStopsAtFirst(files, source, ts, overwrite, blocked, m);
    }
  }

  /**
   * What a split guarantees about the files whatever happens: none
   * disappears, and without `overwrite` no file that existed changes.
   */
  ghost predicate SplitGuarantees(before: map<string, Contents>, after: map<string, Contents>, overwrite: bool)
  {
    && before.Keys <= after.Keys
    && (!overwrite ==> forall n :: n in before ==> after[n] == before[n])
  }

  /** No file that fails the `.mp3` test changes. */
  ghost predicate KeepsNonMp3(before: map<string, Contents>, after: map<string, Contents>)
    requires before.Keys <= after.Keys
  {
    forall n :: n in before && !IsMp3(n) ==> after[n] == before[n]
  }

  /** The writes of a split keep SplitGuarantees and touch no file that fails the `.mp3` test. */
  lemma WriteAllGuarantees(files: map<string, Contents>, filename: string, length: nat, duration: nat,
                           overwrite: bool, blocked: set<string>)
    requires duration > 0
    ensures SplitGuarantees(files, WriteAll(files, filename, Targets(filename, length, duration), overwrite, blocked).0,
                            overwrite)
    ensures KeepsNonMp3(files, WriteAll(files, filename, Targets(filename, length, duration), overwrite, blocked).0)
  {
    var ts := Targets(filename, length, duration);
    TargetsShape(filename, length, duration);
    WriteAllFrame(files, filename, ts, overwrite, blocked);
    if !overwrite {
      WriteAllKeepsExisting(files, filename, ts, blocked);
    }
  }

  /**
   * The failures a split of `filename` can end with: it does not decode, or
   * the export of one of its targets fails.
   */
  predicate SplitFailure(f: Failure, filename: string, codec: Codec, duration: nat)
    requires duration > 0
  {
    if filename !in codec.lengths then f == DecodeFailed(filename)
    else f.ExportFailed? && f.file in Names(Targets(filename, codec.lengths[filename], duration))
  }

  /**
   * The whole effect of `sequential_split` on the files and directories,
   * and how it ends: a file that does not decode changes nothing;
   * otherwise the output directory is made unless its path exists, and
   * the writes are those of WriteAll, blocked by the encoder's unwritable
   * paths, by the directories and by regular files at the targets' parent
   * path (a file with the output directory's name).
   */
  function SplitResult(files: map<string, Contents>, dirs: set<string>, codec: Codec, filename: string,
                       duration: nat, overwrite: bool): (map<string, Contents>, set<string>, Status)
    requires duration > 0
  {
    if filename !in codec.lengths then (files, dirs, Fatal(DecodeFailed(filename)))
    else
      var out := OutputDir(filename);
      var dirs' := if out in files || out in dirs then dirs else dirs + {out};
      var ts := Targets(filename, codec.lengths[filename], duration);
      var w := WriteAll(files, filename, ts, overwrite, Blocked(codec.unwritable, dirs', files, ts));
      (w.0, dirs', w.1)
  }

  /**
   * Whatever happens, a split loses no file or directory, changes no file
   * that fails the `.mp3` test, changes no existing file without
   * `overwrite`, and fails only with one of its own failures.
   */
  lemma SplitResultGuarantees(files: map<string, Contents>, dirs: set<string>, codec: Codec, filename: string,
                              duration: nat, overwrite: bool)
    requires duration > 0
    ensures var r := SplitResult(files, dirs, codec, filename, duration, overwrite);
      && SplitGuarantees(files, r.0, overwrite) && KeepsNonMp3(files, r.0) && dirs <= r.1
      && (r.2.Fatal? ==> SplitFailure(r.2.failure, filename, codec, duration))
  {
    if filename in codec.lengths {
      var out := OutputDir(filename);
      var dirs' := if out in files || out in dirs then dirs else dirs + {out};
      var length := codec.lengths[filename];
      var blocked := Blocked(codec.unwritable, dirs', files, Targets(filename, length, duration));
      WriteAllGuarantees(files, filename, length, duration, overwrite, blocked);
      WriteAllFailure(files, filename, Targets(filename, length, duration), overwrite, blocked);
    }
  }

  /**
   * A regular file "song" beside "song.mp3": the output directory cannot
   * be made, the export of "song/song001.mp3" fails, and the split ends
   * with nothing written.
   */
  lemma FileAtOutputDirFails(files: map<string, Contents>, codec: Codec)
    requires files.Keys == {"song", "song.mp3"}
    requires codec.lengths == map["song.mp3" := 1000]
    ensures SplitResult(files, {}, codec, "song.mp3", 600000, false) ==
      (files, {}, Fatal(ExportFailed("song/song001.mp3")))
  {
    var name := "song/song001.mp3";
    SongTargets(name);
    SongSegmentNames("song.mp3", 1);
    SongFiles(files, name);
    FirstTargetUnderFile(files, {}, codec, "song.mp3", 600000, false);
  }

  /**
   * When the output directory's path is a regular file and the first target
   * is new and lies in it, the split ends at that target with nothing written.
   */
  lemma FirstTargetUnderFile(files: map<string, Contents>, dirs: set<string>, codec: Codec, filename: string,
                             duration: nat, overwrite: bool)
    requires duration > 0
    requires filename in codec.lengths && OutputDir(filename) in files
    requires var ts := Targets(filename, codec.lengths[filename], duration);
      ts != [] && ts[0].name !in files && UnderFile(files, ts[0].name)
    ensures var ts := Targets(filename, codec.lengths[filename], duration);
      SplitResult(files, dirs, codec, filename, duration, overwrite) == (files, dirs, Fatal(ExportFailed(ts[0].name)))
  {
  }

  /** "song.mp3" of one second, in 10-minute pieces, has the one target "song/song001.mp3". */
  lemma SongTargets(name: string)
    requires name == "song/song001.mp3"
    ensures Targets("song.mp3", 1000, 600000) == [Target(name, Segment(0, 1000))]
  {
    OneSecondPlan();
    SongFirstName(name);
    SingleTarget("song.mp3", 1000, 600000, name, Segment(0, 1000));
  }

  /** A plan of one segment gives one target, numbered 1. */
  lemma SingleTarget(filename: string, length: nat, duration: nat, name: string, s: Segment)
    requires duration > 0
    requires Plan(length, duration) == [s]
    requires SegmentFileName(filename, 1) == name
    ensures Targets(filename, length, duration) == [Target(name, s)]
  {
    var ts := Targets(filename, length, duration);
    TargetNames(filename, length, duration);
    assert |ts| == 1;
    assert ts[0].name == name && ts[0].segment == s;
  }

  lemma OneSecondPlan()
    ensures Plan(1000, 600000) == [Segment(0, 1000)]
  {
    PlanLength(1000, 600000);
    PlanSegment(1000, 600000, 0);
  }

  lemma SongFirstName(name: string)
    requires name == "song/song001.mp3"
    ensures SegmentFileName("song.mp3", 1) == name
  {
    SongSegmentNames("song.mp3", 1);
    FirstSequenceNumbers();
    SongNumbered(SequenceNumber(1), name);
  }

  lemma SongNumbered(num: string, name: string)
    requires num == "001" && name == "song/song001.mp3"
    ensures "song/song" + num + ".mp3" == name
  {
    var q := "song/song" + num + ".mp3";
    assert |q| == |name| == 16;
    forall k | 0 <= k < 16
      ensures q[k] == name[k]
    {
      if k < 9 {
        assert q[k] == "song/song"[k];
      } else if k < 12 {
        assert q[k] == num[k - 9];
      } else {
        assert q[k] == ".mp3"[k - 12];
      }
    }
  }

  /** Beside "song" and "song.mp3", "song/song001.mp3" is new, and its parent path is the file "song". */
  lemma SongFiles(files: map<string, Contents>, name: string)
    requires files.Keys == {"song", "song.mp3"}
    requires name == "song/song001.mp3"
    ensures "song" in files && name !in files && UnderFile(files, name)
  {
    SongParent(name);
    assert |name| == 16 && |"song"| == 4 && |"song.mp3"| == 8;
  }

  /** The parent path of "song/song001.mp3" is "song". */
  lemma SongParent(name: string)
    requires name == "song/song001.mp3"
    ensures LastIndexOf(name, '/') == 4 && name[..4] == "song"
  {
    var r := LastIndexOf(name, '/');
    assert name[4] == '/';
    assert forall k :: 4 < k < |name| ==> name[k] != '/';
  }

  /**
   * `create_new_dir`: the output directory is the input path without its
   * extension; creating it when the path already exists is not an error.
   */
  method CreateNewDir(fs: Fs, filename: string) returns (newDir: string)
    requires fs.Valid()
    modifies fs
    ensures fs.Valid()
    ensures newDir == OutputDir(filename)
    ensures fs.files == old(fs.files)
    ensures fs.dirs == if old(fs.Exists(newDir)) then old(fs.dirs) else old(fs.dirs) + {newDir}
  {
    newDir := SplitExt(filename).0;
    var created := fs.Mkdir(newDir);
  }

  /**
   * `sequential_split(filename, duration)` with `duration` in milliseconds.
   * A file that does not decode ends the run before anything is created.
   * Otherwise the output directory is made and the loop's writes are those
   * of WriteAll over the targets; the directories block exports to their
   * paths like the encoder's unwritable paths do, and a regular file at the
   * output directory's path blocks every export into it.
   */
  method SequentialSplit(fs: Fs, codec: Codec, filename: string, duration: nat, overwrite: bool)
    returns (status: Status)
    requires fs.Valid()
    requires duration > 0
    modifies fs
    ensures fs.Valid()
    ensures filename !in codec.lengths ==>
      status == Fatal(DecodeFailed(filename)) && fs.files == old(fs.files) && fs.dirs == old(fs.dirs)
    ensures filename in codec.lengths ==>
      fs.dirs == (if old(fs.Exists(OutputDir(filename))) then old(fs.dirs) else old(fs.dirs) + {OutputDir(filename)}) &&
      (fs.files, status) ==
        var ts := Targets(filename, codec.lengths[filename], duration);
        WriteAll(old(fs.files), filename, ts, overwrite, Blocked(codec.unwritable, fs.dirs, old(fs.files), ts))
    ensures SplitGuarantees(old(fs.files), fs.files, overwrite)
    ensures KeepsNonMp3(old(fs.files), fs.files)
    ensures status.Fatal? ==> SplitFailure(status.failure, filename, codec, duration)
  {
    if filename !in codec.lengths {
      // AudioSegment.from_mp3 raised
      return Fatal(DecodeFailed(filename));
    }
    var length := codec.lengths[filename];
    var newDir := CreateNewDir(fs, filename);
    ghost var files0 := fs.files;
    ghost var ts := Targets(filename, length, duration);
    ghost var blocked := Blocked(codec.unwritable, fs.dirs, files0, ts);
    status := WriteTargets(fs, codec.unwritable, filename, length, duration, overwrite);
    WriteAllGuarantees(files0, filename, length, duration, overwrite, blocked);
    WriteAllFailure(files0, filename, ts, overwrite, blocked);
  }

  /**
   * The loop of `sequential_split`: segment k of the track, cut at multiples
   * of `duration` and stopping at its end, goes to sequence number k + 1.
   */
  method WriteTargets(fs: Fs, unwritable: set<string>, filename: string, length: nat, duration: nat,
                      overwrite: bool)
    returns (status: Status)
    requires fs.Valid()
    requires duration > 0
    modifies fs
    ensures fs.Valid() && fs.dirs == old(fs.dirs)
    ensures var ts := Targets(filename, length, duration);
      (fs.files, status) == WriteAll(old(fs.files), filename, ts, overwrite, Blocked(unwritable, fs.dirs, old(fs.files), ts))
  {
    ghost var files0 := fs.files;
    ghost var ts := Targets(filename, length, duration);
    ghost var blocked := Blocked(unwritable, fs.dirs, files0, ts);
    ghost var dirs1 := fs.dirs;
    PlanLength(length, duration);
    TargetsParentsOutside(filename, length, duration);

    var i: nat := 0;
    var iteration: nat := 1;
    while i < length
      invariant fs.Valid() && fs.dirs == dirs1
      invariant 1 <= iteration <= |ts| + 1
      invariant i == (iteration - 1) * duration
      invariant files0.Keys <= fs.files.Keys <= files0.Keys + Names(ts)
      invariant WriteAll(files0, filename, ts, overwrite, blocked) ==
                WriteAll(fs.files, filename, ts[iteration - 1..], overwrite, blocked)
      decreases length - i
    {
      ghost var k := iteration - 1;
      StepsBeforeEnd(length, duration, k);
      PlanSegment(length, duration, k);
      assert ts[k..][0] == ts[k] && ts[k..][1..] == ts[k + 1..];

      var j := i + duration;
      var slice := Segment(i, Min(j, length));  // song[i:j] stops at the end of the track
      i := j;
      var name := SegmentFileName(filename, iteration);
      assert ts[k] == Target(name, slice);
      assert name in Names(ts);
      UnderFileStable(files0, fs.files, ts, k);
      assert i == iteration * duration by {
        assert iteration * duration == k * duration + duration;
      }
      if fs.IsFile(name) {
        if overwrite {
          var ok := fs.Export(name, Encoded(filename, slice), unwritable);
          if !ok {
            return Fatal(ExportFailed(name));
          }
        }
      } else {
        var ok := fs.Export(name, Encoded(filename, slice), unwritable);
        if !ok {
          return Fatal(ExportFailed(name));
        }
      }
      iteration := iteration + 1;
    }
    StepsBeforeEnd(length, duration, iteration - 1);
    assert ts[iteration - 1..] == [];
    status := Completed;
  }
}
