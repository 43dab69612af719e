/**
 * The command-line entry point: check the duration and the input path,
 * then split one file or walk a directory. Also the duration check as the
 * program writes it, next to the one it evidently intends.
 */
module Cli {
  import opened Paths
  import opened Naming
  import opened Segmentation
  import opened FileSystem
  import opened Splitter
  import opened Walker

  /**
   * The sanity check of the entry point as written, `args.duration is 0.0`.
   * It compares object identity, and the float argparse builds from the
   * command line is never the object of the literal, so no duration is
   * refused, not even zero.
   */
  predicate WrittenGuardRejects(duration: int)
  {
    false
  }

  /** The check the splitter needs: a duration that is not positive is refused. */
  predicate DurationRejected(duration: int)
  {
    duration <= 0
  }

  /**
   * Whether the split loop `while i < length: ...; i = i + duration` has
   * left within `fuel` iterations when it starts from position `i`.
   */
  function LoopLeaves(i: int, length: int, duration: int, fuel: nat): bool
    decreases fuel
  {
    if i >= length then true
    else if fuel == 0 then false
    else LoopLeaves(i + duration, length, duration, fuel - 1)
  }

  /** With a negative duration the position only falls, so the loop never leaves. */
  lemma {:induction false} NegativeDurationNeverLeaves(i: int, length: int, duration: int, fuel: nat)
    requires i < length && duration < 0
    ensures !LoopLeaves(i, length, duration, fuel)
    decreases fuel
  {
    if fuel > 0 {
      NegativeDurationNeverLeaves(i + duration, length, duration, fuel - 1);
    }
  }

  /**
   * A duration of -1000 ms (`-d -1`) passes the written check, and for any
   * non-empty track the split loop then runs forever. A zero duration
   * passes it too, although the corrected check refuses both.
   */
  lemma NegativeDurationCounterexample(length: nat, fuel: nat)
    requires length > 0
    ensures !WrittenGuardRejects(-1000) && DurationRejected(-1000)
    ensures !WrittenGuardRejects(0) && DurationRejected(0)
    ensures !LoopLeaves(0, length, -1000, fuel)
  {
    NegativeDurationNeverLeaves(0, length, -1000, fuel);
  }

  /**
   * With a positive duration the loop leaves after exactly as many
   * iterations as the plan has segments.
   */
  lemma {:induction false} PositiveDurationLeaves(i: nat, length: nat, duration: nat, fuel: nat)
    requires duration > 0
    ensures LoopLeaves(i, length, duration, fuel) <==> fuel >= |PlanFrom(i, length, duration)|
    decreases if i < length then length - i else 0
  {
    if i < length && fuel > 0 {
      PositiveDurationLeaves(i + duration, length, duration, fuel - 1);
    }
  }

  /**
   * Every duration the corrected check lets through ends the loop after the
   * announced number of files, and not before.
   */
  lemma AcceptedDurationTerminates(length: nat, duration: int)
    requires !DurationRejected(duration)
    ensures LoopLeaves(0, length, duration, FileCount(length, duration))
    ensures forall fuel: nat :: fuel < FileCount(length, duration) ==> !LoopLeaves(0, length, duration, fuel)
  {
    PlanLength(length, duration);
    forall fuel: nat
      ensures LoopLeaves(0, length, duration, fuel) <==> fuel >= FileCount(length, duration)
    {
      PositiveDurationLeaves(0, length, duration, fuel);
    }
  }

  /**
   * The entry point, after argument parsing. `duration` is in
   * milliseconds; `listing` is what listing `path` returns when it is a
   * directory. The duration is checked first, then that the path exists; a
   * directory is walked, and any other path must pass the `.mp3` test
   * before it is split. `processed` lists the files handed to the splitter.
   */
  method Run(fs: Fs, codec: Codec, path: string, duration: int, overwrite: bool, listing: seq<string>)
    returns (status: Status, processed: seq<string>)
    requires fs.Valid()
    modifies fs
    ensures fs.Valid()
    ensures DurationRejected(duration) ==>
      status == Fatal(InvalidDuration) && processed == [] && fs.files == old(fs.files) && fs.dirs == old(fs.dirs)
    ensures !DurationRejected(duration) && !old(fs.Exists(path)) ==>
      status == Fatal(MissingPath(path)) && processed == [] && fs.files == old(fs.files) && fs.dirs == old(fs.dirs)
    ensures !DurationRejected(duration) && old(fs.IsFile(path)) && !IsMp3(path) ==>
      status == Fatal(UnsupportedExtension(SplitExt(path).1)) && processed == [] &&
      fs.files == old(fs.files) && fs.dirs == old(fs.dirs)
    ensures !DurationRejected(duration) && old(fs.IsFile(path)) && IsMp3(path) ==>
      processed == [path] &&
      (path !in codec.lengths ==>
        status == Fatal(DecodeFailed(path)) && fs.files == old(fs.files) && fs.dirs == old(fs.dirs)) &&
      (path in codec.lengths ==>
        fs.dirs == (if old(fs.Exists(OutputDir(path))) then old(fs.dirs) else old(fs.dirs) + {OutputDir(path)}) &&
        var ts := Targets(path, codec.lengths[path], duration as nat);
        (fs.files, status) ==
          WriteAll(old(fs.files), path, ts, overwrite, Blocked(codec.unwritable, fs.dirs, old(fs.files), ts)))
    ensures !DurationRejected(duration) && old(fs.IsDir(path)) ==>
      var es := Entries(path, listing);
      var w := WalkFrom(IsMp3, ProgramSplit(codec, duration as nat, overwrite), old(fs.files), old(fs.dirs), es);
      && fs.files == w.files && fs.dirs == w.dirs && status == w.status && processed == w.processed
      && Walked(IsMp3, ProgramFailure(codec, duration as nat), old(fs.files), w.files, es, w.status, w.processed)
      && Ended(es, w)
    ensures SplitGuarantees(old(fs.files), fs.files, overwrite)
    ensures KeepsNonMp3(old(fs.files), fs.files)
  {
    processed := [];
    if DurationRejected(duration) {
      return Fatal(InvalidDuration), processed;
    }
    if !fs.Exists(path) {
      assert !fs.IsDir(path) && !fs.IsFile(path);
      return Fatal(MissingPath(path)), processed;
    }
    if fs.IsDir(path) {
      var visited;
      status, processed, visited := IterateOnADirectory(fs, codec, path, listing, duration, overwrite);
    } else {
      var fileExtension := SplitExt(path).1;
      if LowerAscii(fileExtension) != ".mp3" {
        return Fatal(UnsupportedExtension(fileExtension)), processed;
      }
      processed := [path];
      status := SequentialSplit(fs, codec, path, duration, overwrite);
      assert !old(fs.IsDir(path));
    }
  }
}
