# mp3split, modelled in Dafny

mp3split cuts an MP3 file into pieces of a fixed duration. The pieces go into a new directory named after the input without its extension. The program can also do this for every MP3 file directly inside a directory. This project models the part of the script that is not I/O:

- the segmentation plan: how many pieces a track of `length` milliseconds gives for a piece `duration`, and which millisecond range each piece holds;
- the numbering and naming of the pieces: `<dir>/<stem><NNN>.mp3`, with `NNN` being `str(n).zfill(3)`;
- the overwrite policy applied to each target file;
- the derivation of the output directory (`create_new_dir`);
- the `.mp3` filter of the directory walker and of the command line.

The model is split into modules:

- `Paths` holds `os.path.splitext`, `basename` and `join` (POSIX rules) and the case-insensitive `.mp3` test. `str.rfind` is `LastIndexOf`, defined through `LastBefore`, the last occurrence among the first n characters.
- `Naming` holds `str(n)`, `zfill` and segment file names.
- `Segmentation` holds the file count and the plan.
- `FileSystem` holds a class `Fs`. Its fields are a map from path to contents for regular files and a set of directories. `Mkdir` and `Export` update them in place.
- `Splitter` holds `create_new_dir` and `sequential_split`. The split is a `while` loop, `WriteTargets`, proved against `WriteAll`, a function that gives the effect of the loop's writes target by target. `SplitResult` is the whole effect of one split as a function.
- `Walker` holds `iterate_on_a_directory`. Its `for` loop, `VisitEntries`, is proved against `WalkFrom`, a function that gives the walk entry by entry. `WalkFrom` takes the file test and the effect of one split as parameters. Its lemmas therefore hold for any split that loses no file, and `ProgramWalk` applies them to the program's own split.
- `Cli` holds the entry point and the duration check.

pydub is represented by `Splitter.Codec`. It records the decoded length of each file that decodes and the set of paths that `export` cannot write. The global `OVERWRITE` flag is passed as a parameter.

## Model

| member | source | states |
|---|---|---|
| `Paths.LastIndexOf` | mp3split.py:44 | the result is the position of the last occurrence of the character, or -1 when it does not occur |
| `Paths.SplitExt` | mp3split.py:44 | the stem and the extension concatenate back to the path; the extension is empty or starts with its only dot and holds no separator |
| `Paths.Basename` | mp3split.py:126 | the result is the longest suffix of the path that holds no '/' |
| `Paths.Join` | mp3split.py:126 | `os.path.join` of two components: an absolute second component replaces the first; otherwise one '/' is put between them unless the first is empty or already ends in '/'. Its properties are stated by `JoinInjective` and `PlainLeafJoin` |
| `Paths.JoinInjective` | mp3split.py:126-127 | joining two relative names to the same directory gives equal paths only if the names are equal |
| `Paths.Lower` | mp3split.py:65 | `str.lower` on one character, for ASCII letters only. No contract of its own; `Mp3Only` and `Mp3If` state what the `.mp3` test built on it accepts |
| `Paths.LowerAscii` | mp3split.py:65 | `str.lower` on a string, also at line 177: each character lower-cased in place, so the length is kept. No contract of its own; `Mp3Characterization` states the test built on it |
| `Paths.IsMp3` | mp3split.py:64-65 | the test `splitext(p)[1].lower() == ".mp3"`, used by the walker and, with the same expression, by the entry point at lines 176-177. `Mp3Characterization` states what it accepts |
| `Paths.Mp3Only` | mp3split.py:64-65 | a path that passes the `.mp3` test ends in ".mp3" in some letter case, after a last component that is not all dots |
| `Paths.Mp3If` | mp3split.py:64-65 | a path that ends in ".mp3" in some letter case, after a last component that is not all dots, passes the `.mp3` test |
| `Paths.Mp3Characterization` | mp3split.py:64-65 | the extension test holds exactly when the path ends in ".mp3" in any letter case and its last component holds something other than dots before that ending |
| `Paths.Mp3Stem` | mp3split.py:44 | for an `.mp3` file, the output directory is the path minus its four-character extension, so it differs from the input path |
| `Paths.Mp3Accepted` | mp3split.py:61-67 | `a.mp3` and `c.MP3` pass the extension test |
| `Paths.Mp3Rejected` | mp3split.py:68-69 | `b.wav` fails the extension test, and so does a file named `.mp3` |
| `Naming.DecimalString` | mp3split.py:127 | `str(n)` is a non-empty digit string with no leading zero for n > 0, and has at most three digits for n < 1000 |
| `Naming.DecimalRoundTrip` | mp3split.py:127 | reading `str(n)` back as a decimal number gives n |
| `Naming.LeadingZeros` | mp3split.py:127 | zeros padded on the left leave the value of a digit string unchanged |
| `Naming.ZeroFill` | mp3split.py:127 | `zfill(width)`: the result is `width` long when the string is shorter, and the string itself otherwise; it ends with the string, and everything before it is '0' |
| `Naming.SequenceNumber` | mp3split.py:127 | `str(n).zfill(3)` is all digits and at least 3 long, and exactly 3 long for n < 1000 |
| `Naming.SequenceNumberRoundTrip` | mp3split.py:127 | a sequence number reads back as the number it was made from |
| `Naming.SequenceNumberInjective` | mp3split.py:127 | different segment numbers give different sequence numbers |
| `Naming.OutputDir` | mp3split.py:44 | the output directory is a prefix of the input path |
| `Naming.SegmentLeaf` | mp3split.py:126-127 | the file name of segment n inside the output directory: the input's base name without extension, the sequence number, then ".mp3". `SegmentLeafRelative` states its shape |
| `Naming.SegmentFileName` | mp3split.py:126-127 | the path of segment n: the leaf joined to the output directory. `SegmentFileNamesDistinct`, `SegmentFileIsMp3` and `PlainFileSegmentName` state its properties |
| `Naming.SegmentLeafRelative` | mp3split.py:126-127 | the segment's file name holds no separator and is at least seven characters long, so it is a name inside the output directory |
| `Naming.SegmentFileNamesDistinct` | mp3split.py:120-127 | two different sequence numbers give two different segment paths for the same input file |
| `Naming.SegmentFileIsMp3` | mp3split.py:126-127 | every segment path passes the `.mp3` test itself |
| `Naming.PlainLeafJoin` | mp3split.py:126 | joining "<stem><NNN>.mp3" to the directory "<stem>" puts exactly one '/' between them |
| `Naming.PlainFileSegmentName` | mp3split.py:126-127 | for an input "<stem>.mp3" whose stem holds no separator and no dot, the output directory is "<stem>" and segment n is "<stem>/<stem><NNN>.mp3" |
| `Naming.JoinedParent` | mp3split.py:126 | a directory joined with a relative name that holds no separator is at least as long as both, and its last '/' lies at most one past the directory part |
| `Naming.SegmentParentsShort` | mp3split.py:126-127 | the parent path of a segment file, what precedes its last '/', is shorter than every segment path of the same input, so no segment file lies inside another |
| `Naming.FirstSequenceNumbers` | mp3split.py:127 | the first three segments are numbered "001", "002" and "003" |
| `Naming.SongSegmentNames` | mp3split.py:126-127 | "song.mp3" gets the output directory "song", and its segments are named "song/song001.mp3", "song/song002.mp3", and so on |
| `Segmentation.FileCount` | mp3split.py:112-114 | the announced count is the ceiling of length / duration: it covers the track, and one fewer does not |
| `Segmentation.StepsBeforeEnd` | mp3split.py:122 | the loop test `i < length` holds at step k exactly when k is below the announced count |
| `Segmentation.PlanFrom` | mp3split.py:119-125 | the segments the split loop visits from position i on, each slice stopping at the track's end. `PlanFromCount` and `PlanFromShape` state their number and their ranges |
| `Segmentation.Plan` | mp3split.py:119-125 | the segments of the whole track, from position 0. `PlanLength`, `PlanSegment`, `PlanContiguous`, `PlanSegmentLengths` and `PlanPartition` state its properties |
| `Segmentation.PlanFromCount` | mp3split.py:112-125 | from step k on, the loop produces the segments k up to the announced count, or none when step k is already past the end |
| `Segmentation.PlanFromShape` | mp3split.py:119-125 | from step k on, the j-th remaining segment is [(k + j)·duration, min((k + j + 1)·duration, length)) |
| `Segmentation.PlanLength` | mp3split.py:112-125 | the loop produces exactly the announced number of segments |
| `Segmentation.PlanSegment` | mp3split.py:122-125 | segment k covers [k·duration, min((k+1)·duration, length)) |
| `Segmentation.PlanContiguous` | mp3split.py:119-125 | there are no segments exactly when the track is empty; the first starts at 0, each later one starts where the previous ended, and the last ends at the track's end |
| `Segmentation.PlanSegmentLengths` | mp3split.py:122-124 | every segment is non-empty and at most one duration long; all but the last are exactly one duration long |
| `Segmentation.PlanPartition` | mp3split.py:119-125 | millisecond t of the track lies in segment t / duration and in no other |
| `Segmentation.SongPlan` | mp3split.py:110-125 | a 1230000 ms track cut into 600000 ms pieces gives [0, 600000), [600000, 1200000) and [1200000, 1230000) |
| `FileSystem.Fs.Mkdir` | mp3split.py:47-49 | a directory is added exactly when nothing had that path; the files do not change |
| `FileSystem.UnderFile` | mp3split.py:141 | an entry cannot be created at a path whose parent path, what precedes its last '/', is a regular file (as when a file holds the output directory's name). No contract of its own; `Fs.Export` and `Splitter.Blocked` use it |
| `FileSystem.Fs.Exists` | mp3split.py:169 | `os.path.exists`: the path is a regular file or a directory. No contract of its own; `Fs.Mkdir`, `CreateNewDir` and `Cli.Run` state their effects through it |
| `FileSystem.Fs.IsFile` | mp3split.py:63 | `os.path.isfile`, also the test at line 129: the path is a regular file. No contract of its own; `VisitEntry`, `WriteTargets` and `Cli.Run` branch on it |
| `FileSystem.Fs.IsDir` | mp3split.py:173 | `os.path.isdir`: the path is a directory. No contract of its own; `Cli.Run` branches on it |
| `FileSystem.Fs.Export` | mp3split.py:133 | `slice.export`, also at line 141: the export succeeds exactly when the path is writable, is not a directory, and its parent path is not a regular file; on success only that path changes, and a failed export changes nothing |
| `Splitter.ExitCode` | mp3split.py:165-181 | the process exit status: 1 for a run that ends at `exit(1)` (lines 136, 144, 167, 171 and 179) or an uncaught exception, 0 otherwise. No contract of its own and no contract uses it; every run's `Status` is stated instead |
| `Splitter.Targets` | mp3split.py:119-127 | the files of one split in loop order: segment k of the plan goes to the path with sequence number k + 1. `TargetsShape` states its properties |
| `Splitter.TargetsShape` | mp3split.py:119-127 | there are as many targets as the announced count; target k is numbered k + 1; the names are pairwise distinct, and each is an `.mp3` path |
| `Splitter.ParentsOutside` | mp3split.py:126-127 | no target's parent path is itself a target: it is shorter than every target path. `TargetsParentsOutside` proves it for every split |
| `Splitter.TargetsParentsOutside` | mp3split.py:119-127 | the targets of every split have their parent paths outside the targets, so the split's own writes never put a file at a target's parent path |
| `Splitter.UnderFileStable` | mp3split.py:129-142 | files that differ from the initial ones only by added targets agree with them on whether each target's parent path is a regular file |
| `Splitter.Blocked` | mp3split.py:133-142 | a target cannot be exported exactly when the encoder cannot write it, it is a directory, or its parent path is a regular file |
| `Splitter.WriteAll` | mp3split.py:129-144 | the loop's writes target by target: an existing target is skipped without overwrite, any other is exported, and the first failed export ends the run. Its lemmas below state the outcome |
| `Splitter.WriteAllFrame` | mp3split.py:129-144 | no file disappears, the only new files are targets, and every file that is not a target keeps its contents |
| `Splitter.WriteAllKeepsExisting` | mp3split.py:137-138 | without overwrite, every file that existed keeps its contents |
| `Splitter.WriteAllCompletes` | mp3split.py:129-144 | with distinct targets, the run completes exactly when no target that must be written (one that did not exist, or any under overwrite) is unwritable |
| `Splitter.WriteAllWrites` | mp3split.py:129-144 | after a completed run with distinct targets, every target that had to be written holds its segment, and every other target keeps its old contents |
| `Splitter.WriteAllFailure` | mp3split.py:134-136 | a run that does not complete stops at a failed export of one of its targets |
| `Splitter.WriteAllStopsAtFirst` | mp3split.py:129-144 | when target k is the first, in loop order, that must be written and cannot be, the run fails naming target k, and the files are those the targets before k left: earlier writes stay and later targets are untouched |
| `Splitter.WriteAllFatal` | mp3split.py:129-144 | a run with distinct targets that does not complete stopped at the first target that had to be written and could not be, with the files the targets before it left |
| `Splitter.WriteAllGuarantees` | mp3split.py:129-144 | a split loses no file, changes no file that fails the `.mp3` test, and changes no existing file without overwrite |
| `Splitter.SplitResult` | mp3split.py:97-147 | the whole effect of `sequential_split` on files and directories and how it ends; an export is blocked by the encoder, by a directory at the target's path, or by a regular file at its parent path. `SequentialSplit` is proved to have exactly this effect, and `SplitResultGuarantees` and `FileAtOutputDirFails` state what it does |
| `Splitter.FirstTargetUnderFile` | mp3split.py:106-142 | when a regular file holds the output directory's name and the first target is new and lies under a regular file, the split ends at that target's export with nothing written and no directory made |
| `Splitter.FileAtOutputDirFails` | mp3split.py:106-142 | with a regular file "song" beside "song.mp3", `mkdir` fails (lines 47-49), the export of "song/song001.mp3" fails, and the split ends with that failure and nothing written |
| `Splitter.SplitResultGuarantees` | mp3split.py:97-147 | whatever happens, a split loses no file or directory, changes no file that fails the `.mp3` test, changes no existing file without overwrite, and fails only because the file does not decode or one of its own targets cannot be written |
| `Splitter.CreateNewDir` | mp3split.py:42-50 | returns the input path without its extension; creates that directory unless the path already exists, in which case nothing changes; files are untouched |
| `Splitter.SequentialSplit` | mp3split.py:97-147 | a file that fails to decode stops the run and nothing is created; otherwise the output directory is created and the loop's writes and final status are those of `WriteAll` over the targets, blocked as `Blocked` says; existing files are never lost; non-`.mp3` files are never changed; without overwrite no existing file changes; a failure is one of the split's own |
| `Splitter.WriteTargets` | mp3split.py:119-144 | the `while` loop leaves the directories alone, and its writes and final status are exactly those of `WriteAll` over the targets, with the exports `Blocked` names failing |
| `Walker.Entries` | mp3split.py:61-62 | the entry paths `os.path.join(directory, f)`, one per listed name, in listing order |
| `Walker.WalkFrom` | mp3split.py:61-69 | the walk over the entry paths: each regular file that passes the test is split, anything else is skipped, and a failed split ends the walk. The `Walk*` lemmas state what it guarantees |
| `Walker.VisitEntry` | mp3split.py:62-69 | an entry is handed to the splitter exactly when it is a regular file that passes the `.mp3` test, with the effect of `SplitResult`; anything else changes nothing |
| `Walker.VisitEntries` | mp3split.py:61-69 | the `for` loop's new state, status, handed-over files and count of examined entries are exactly those of `WalkFrom` over the entry paths |
| `Walker.IterateOnADirectory` | mp3split.py:53-70 | the result is that of `WalkFrom`; every file handed to the splitter is a listed entry that was a regular file passing the `.mp3` test; a completed walk examined every entry and handed over every regular `.mp3` file among them; a fatal walk ends at the entry whose split failed, which is the last file handed over, no later entry was handed over, and the failure is that split's own; no file is lost, no file that fails the `.mp3` test changes, and without overwrite no existing file changes |
| `Walker.ProgramSplitSafe` | mp3split.py:67 | the program's split loses no file or directory, changes no non-`.mp3` file, changes no existing file without overwrite, and fails only with its own failures |
| `Walker.WalkKeeps` | mp3split.py:61-69 | a walk whose splits keep files loses no file or directory, changes no non-`.mp3` file, and changes no existing file without overwrite |
| `Walker.WalkHandsOver` | mp3split.py:61-67 | a walk hands over only entries it examined, each passing the test |
| `Walker.WalkLeavesFiles` | mp3split.py:63-67 | the files a walk handed over are regular files when it ends, and no file is lost |
| `Walker.WalkCovers` | mp3split.py:61-67 | every examined entry that was a regular file passing the test at the start was handed over |
| `Walker.WalkStops` | mp3split.py:61-69 | a completed walk examined every entry; a fatal one ends at the entry whose split failed, the last file it handed over |
| `Walker.WalkFails` | mp3split.py:67 | a fatal walk ends with a failure of the split of the last file it handed over |
| `Walker.WalkEnds` | mp3split.py:61-69 | a walk hands over only entries it examined; a completed one examined them all; a fatal one ends at the failed split, and no later entry was handed over |
| `Walker.WalkFromWalked` | mp3split.py:61-69 | every walk hands over only listed regular files that pass the test, hands over all of them when it completes, and fails only with the last split's own failure |
| `Walker.WalkGuarantees` | mp3split.py:61-69 | the walk guarantees above hold together for any split that keeps files and fails only in a given way |
| `Walker.ProgramWalk` | mp3split.py:53-70 | the walk guarantees hold for the program's own split and `.mp3` test |
| `Cli.WrittenGuardRejects` | mp3split.py:165 | the check `args.duration is 0.0` as written: it compares object identity, so it refuses no duration |
| `Cli.LoopLeaves` | mp3split.py:122-125 | whether the split loop, started at position i, has left within a given number of iterations; `PositiveDurationLeaves` and `NegativeDurationNeverLeaves` state when |
| `Cli.NegativeDurationNeverLeaves` | mp3split.py:122-125 | with a negative duration, the loop test stays true for any number of iterations |
| `Cli.NegativeDurationCounterexample` | mp3split.py:165-167 | durations of -1000 ms and of 0 pass the check as written though the corrected check refuses them, and with -1000 ms the split loop never ends for a non-empty track |
| `Cli.PositiveDurationLeaves` | mp3split.py:122-125 | with a positive duration, the loop ends within a given number of iterations exactly when that number reaches the plan's segment count |
| `Cli.AcceptedDurationTerminates` | mp3split.py:112-125 | for any duration the corrected check accepts, the loop ends after exactly the announced count of iterations |
| `Cli.Run` | mp3split.py:161-181 | a rejected duration, a missing path, or a file without the `.mp3` extension each stop the run with their own failure and change nothing; an `.mp3` file is split with exactly the effect of `SequentialSplit`; a directory is walked with exactly the effect of `IterateOnADirectory` and its guarantees; in every case no file is lost, no non-`.mp3` file changes, and without overwrite no existing file changes |

## Left out

- Decoding and encoding, done by pydub's `AudioSegment.from_mp3` and `export`, are outside the model. `Splitter.Codec` stands in for them: it gives each decodable file's length and the set of paths an export cannot write.
- The slice `song[i:j]` is modelled as the range [i, min(j, length)). Stopping at the track's end is pydub's behaviour, and it is taken as given.
- Lengths and durations are natural numbers of milliseconds. The float arithmetic of `duration_seconds * 1000` and `duration * 1000` is not modelled.
- The zero-duration test at mp3split.py:165 compares object identity (`is 0.0`) and so refuses nothing; `Cli.WrittenGuardRejects` models it that way. `Cli.Run` uses the corrected test described under Findings, because the splitter divides by the duration.
- Logging, `set_up_logs`, and argparse are not modelled. Ending the process with `exit(1)` or an uncaught exception is a `Fatal` status, and `Splitter.ExitCode` maps it to 1.
- The output of `os.listdir` is passed to the walker as the parameter `listing`, because its order depends on the operating system.
- The file system has only regular files and directories. Symbolic links and other special entries are not modelled.
- `os.mkdir` is modelled as failing only when the path already exists. Other failures, such as permission errors, a missing parent directory, or a regular file further up the path (`NotADirectoryError`, which would end the run uncaught), are not modelled.
- `FileSystem.UnderFile` looks only at the path before the last '/'. A regular file further up the path, and a parent path written with doubled or trailing separators, do not block an export in the model.
- A failed export is modelled as leaving its target unchanged. In reality the encoder may leave a partial file behind.
- `str.lower` is modelled for ASCII only. No non-ASCII character lower-cases to '.', 'm', 'p' or '3', so the `.mp3` test is unaffected.
- Paths follow POSIX rules, with '/' as the only separator. Windows drive letters and '\\' are not modelled.
- The commented-out multithreaded variant (mp3split.py:73-93) is not modelled, because it was never implemented.

## Findings

| source | as written | input that shows it | evidently intended | confidence | as-written member | corrected member |
|---|---|---|---|---|---|---|
| mp3split.py:165-167 | the duration check compares object identity with `0.0`, which a float parsed from the command line never has, so it refuses no duration | `-d -1` on a non-empty MP3 file: the check passes, `i` becomes -1000, -2000, …, and `while i < length` never ends. `-d 0`: the check passes, the file is decoded (line 106), `create_new_dir` (line 108) makes the output directory, and the division at line 112 then raises ZeroDivisionError, leaving the empty directory behind; a file that fails to decode stops at line 106 before any directory is made | refuse every duration that is not positive, which is the precondition of the division at line 112 and of the loop ending | medium, not executed | `Cli.NegativeDurationCounterexample` | `Cli.AcceptedDurationTerminates` |
