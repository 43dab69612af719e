/**
 * `iterate_on_a_directory`: one pass over the entries of a directory (not
 * recursive), handing every regular `.mp3` file to the splitter.
 */
module Walker {
  import opened Paths
  import opened FileSystem
  import opened Splitter

  /** The paths of the listed entries, `os.path.join(directory, f)` for each. */
  function Entries(directory: string, listing: seq<string>): seq<string>
  {
    seq(|listing|, k requires 0 <= k < |listing| => Join(directory, listing[k]))
  }

  /** The regular files among `files` whose path passes the test `accept`. */
  function Candidates(accept: string -> bool, files: map<string, Contents>): set<string>
  {
    set p | p in files && accept(p)
  }

  /** The entries of `es` that belong to `s`. */
  function Selected(s: set<string>, es: seq<string>): set<string>
  {
    set k | 0 <= k < |es| && es[k] in s :: es[k]
  }

  /** Every path in `ps` passes the test `accept`. */
  predicate AllPass(accept: string -> bool, ps: seq<string>)
  {
    forall k :: 0 <= k < |ps| ==> accept(ps[k])
  }

  /** Every path in `ps` is a regular file in `files`. */
  predicate AllFiles(ps: seq<string>, files: map<string, Contents>)
  {
    forall k :: 0 <= k < |ps| ==> ps[k] in files
  }

  /** Every path in `ps` is one of `es`. */
  predicate Among(ps: seq<string>, es: seq<string>)
  {
    forall k :: 0 <= k < |ps| ==> ps[k] in es
  }

  /**
   * `sequential_split` as the walker sees it: from the files, the
   * directories and the path it is given, the new files and directories
   * and how the split ended.
   */
  type Splitting = (map<string, Contents>, set<string>, string) -> (map<string, Contents>, set<string>, Status)

  /** The program's split: SplitResult with the codec, duration and overwrite flag of the run. */
  function ProgramSplit(codec: Codec, duration: nat, overwrite: bool): Splitting
    requires duration > 0
  {
    (files: map<string, Contents>, dirs: set<string>, p: string) =>
      SplitResult(files, dirs, codec, p, duration, overwrite)
  }

  /**
   * A split that loses no file or directory, changes no file that fails
   * the `.mp3` test, and without `overwrite` changes no file that existed.
   */
  ghost predicate SplitKeeps(split: Splitting, overwrite: bool)
  {
    forall files, dirs, p ::
      && SplitGuarantees(files, split(files, dirs, p).0, overwrite)
      && KeepsNonMp3(files, split(files, dirs, p).0)
      && dirs <= split(files, dirs, p).1
  }

  /** A split that loses no file. */
  ghost predicate SplitGrows(split: Splitting)
  {
    forall files: map<string, Contents>, dirs, p :: files.Keys <= split(files, dirs, p).0.Keys
  }

  /** A split that fails only with failures that `fails` admits for the path it was given. */
  ghost predicate SplitFailsWith(split: Splitting, fails: (Failure, string) -> bool)
  {
    forall files, dirs, p :: split(files, dirs, p).2.Fatal? ==> fails(split(files, dirs, p).2.failure, p)
  }

  /** The failures a split of a path can end with, as SplitFailure states them. */
  function ProgramFailure(codec: Codec, duration: nat): (Failure, string) -> bool
    requires duration > 0
  {
    (f: Failure, p: string) => SplitFailure(f, p, codec, duration)
  }

  /** The program's split keeps files and fails only with its own failures. */
  lemma ProgramSplitSafe(codec: Codec, duration: nat, overwrite: bool)
    requires duration > 0
    ensures SplitKeeps(ProgramSplit(codec, duration, overwrite), overwrite)
    ensures SplitGrows(ProgramSplit(codec, duration, overwrite))
    ensures SplitFailsWith(ProgramSplit(codec, duration, overwrite), ProgramFailure(codec, duration))
  {
    var split := ProgramSplit(codec, duration, overwrite);
    forall files, dirs, p
      ensures && SplitGuarantees(files, split(files, dirs, p).0, overwrite)
              && KeepsNonMp3(files, split(files, dirs, p).0)
              && dirs <= split(files, dirs, p).1
              && (split(files, dirs, p).2.Fatal? ==>
                    SplitFailure(split(files, dirs, p).2.failure, p, codec, duration))
    {
      SplitResultGuarantees(files, dirs, codec, p, duration, overwrite);
    }
  }

  /**
   * Where a walk ends: the files and directories, its status, the files it
   * handed to the splitter in order, and how many entries it examined.
   */
  datatype Walk = Walk(files: map<string, Contents>, dirs: set<string>, status: Status, processed: seq<string>,
                       visited: nat)

  /** The walk `w`, after `n` entries were examined and the files `ps` were handed over. */
  function Preceded(ps: seq<string>, n: nat, w: Walk): Walk
  {
    w.(processed := ps + w.processed, visited := n + w.visited)
  }

  /**
   * The loop of `iterate_on_a_directory` over the entry paths `es`, with
   * the test `accept` (the `.mp3` test in the program) and the effect
   * `split` of one split: each regular file that passes the test is split
   * in turn, anything else is skipped, and the first split that fails ends
   * the walk.
   */
  function WalkFrom(accept: string -> bool, split: Splitting, files: map<string, Contents>, dirs: set<string>,
                    es: seq<string>): Walk
    decreases |es|
  {
    if es == [] then Walk(files, dirs, Completed, [], 0)
    else if es[0] in files && accept(es[0]) then
      var r := split(files, dirs, es[0]);
      if r.2.Fatal? then Walk(r.0, r.1, r.2, [es[0]], 1)
      else Preceded([es[0]], 1, WalkFrom(accept, split, r.0, r.1, es[1..]))
    else Preceded([], 1, WalkFrom(accept, split, files, dirs, es[1..]))
  }

  /** Unfolding WalkFrom at entry i: an entry that is not a regular file passing the test is skipped. */
  lemma WalkSkips(accept: string -> bool, split: Splitting, files: map<string, Contents>, dirs: set<string>,
                  es: seq<string>, i: nat)
    requires i < |es| && !(es[i] in files && accept(es[i]))
    ensures WalkFrom(accept, split, files, dirs, es[i..]) ==
            Preceded([], 1, WalkFrom(accept, split, files, dirs, es[i + 1..]))
  {
    assert es[i..][0] == es[i] && es[i..][1..] == es[i + 1..];
  }

  /** Unfolding WalkFrom at entry i: a regular file that passes the test is split, and a failed split ends the walk. */
  lemma WalkSplits(accept: string -> bool, split: Splitting, files: map<string, Contents>, dirs: set<string>,
                   es: seq<string>, i: nat)
    requires i < |es| && es[i] in files && accept(es[i])
    ensures var r := split(files, dirs, es[i]);
      WalkFrom(accept, split, files, dirs, es[i..]) ==
        if r.2.Fatal? then Walk(r.0, r.1, r.2, [es[i]], 1)
        else Preceded([es[i]], 1, WalkFrom(accept, split, r.0, r.1, es[i + 1..]))
  {
    assert es[i..][0] == es[i] && es[i..][1..] == es[i + 1..];
  }

  lemma PrecededTwice(ps: seq<string>, n: nat, qs: seq<string>, m: nat, w: Walk)
    ensures Preceded(ps, n, Preceded(qs, m, w)) == Preceded(ps + qs, n + m, w)
  {
    assert ps + (qs + w.processed) == ps + qs + w.processed;
  }

  /**
   * A walk whose splits keep files loses no file or directory, changes no
   * file that fails the `.mp3` test, and without `overwrite` changes no
   * file that existed.
   */
  lemma {:induction false} WalkKeeps(accept: string -> bool, split: Splitting, files: map<string, Contents>,
                                     dirs: set<string>, es: seq<string>, overwrite: bool)
    requires SplitKeeps(split, overwrite)
    ensures var w := WalkFrom(accept, split, files, dirs, es);
      SplitGuarantees(files, w.files, overwrite) && KeepsNonMp3(files, w.files) && dirs <= w.dirs
    decreases |es|
  {
    if es != [] {
      var p := es[0];
      if p in files && accept(p) {
        var r := split(files, dirs, p);
        if r.2 == Completed {
          WalkKeeps(accept, split, r.0, r.1, es[1..], overwrite);
        }
      } else {
        WalkKeeps(accept, split, files, dirs, es[1..], overwrite);
      }
    }
  }

  lemma PassJoin(accept: string -> bool, ps: seq<string>, qs: seq<string>)
    requires AllPass(accept, ps) && AllPass(accept, qs)
    ensures AllPass(accept, ps + qs)
  {
    forall k | |ps| <= k < |ps + qs|
      ensures accept((ps + qs)[k])
    {
      assert (ps + qs)[k] == qs[k - |ps|];
    }
  }

  lemma AmongJoin(ps: seq<string>, qs: seq<string>, es: seq<string>, fs: seq<string>)
    requires Among(ps, es) && Among(qs, fs)
    ensures Among(ps + qs, es + fs)
  {
    forall k | 0 <= k < |ps + qs|
      ensures (ps + qs)[k] in es + fs
    {
      if k >= |ps| {
        assert (ps + qs)[k] == qs[k - |ps|];
      }
    }
  }

  lemma FilesJoin(ps: seq<string>, qs: seq<string>, files: map<string, Contents>)
    requires AllFiles(ps, files) && AllFiles(qs, files)
    ensures AllFiles(ps + qs, files)
  {
    forall k | |ps| <= k < |ps + qs|
      ensures (ps + qs)[k] in files
    {
      assert (ps + qs)[k] == qs[k - |ps|];
    }
  }

  /**
   * The files a walk hands to the splitter are entries it examined, in
   * entry order, and each passed the test.
   */
  lemma {:induction false} WalkHandsOver(accept: string -> bool, split: Splitting, files: map<string, Contents>,
                                         dirs: set<string>, es: seq<string>)
    ensures var w := WalkFrom(accept, split, files, dirs, es);
      w.visited <= |es| && AllPass(accept, w.processed) && Among(w.processed, es[..w.visited])
    decreases |es|
  {
    if es != [] {
      var w := WalkFrom(accept, split, files, dirs, es);
      var p := es[0];
      var handed := p in files && accept(p);
      var files', dirs' := files, dirs;
      if handed {
        var r := split(files, dirs, p);
        if r.2.Fatal? {
          assert es[..1] == [p];
          return;
        }
        files', dirs' := r.0, r.1;
      }
      var v := WalkFrom(accept, split, files', dirs', es[1..]);
      WalkHandsOver(accept, split, files', dirs', es[1..]);
      var ps := if handed then [p] else [];
      assert w.processed == ps + v.processed && w.visited == 1 + v.visited;
      PassJoin(accept, ps, v.processed);
      AmongJoin(ps, v.processed, [p], es[1..][..v.visited]);
      assert es[..w.visited] == [p] + es[1..][..v.visited];
    }
  }

  /** The files a walk hands to the splitter are still regular files when it ends. */
  lemma {:induction false} WalkLeavesFiles(accept: string -> bool, split: Splitting, files: map<string, Contents>,
                                           dirs: set<string>, es: seq<string>)
    requires SplitGrows(split)
    ensures var w := WalkFrom(accept, split, files, dirs, es);
      files.Keys <= w.files.Keys && AllFiles(w.processed, w.files)
    decreases |es|
  {
    if es != [] {
      var w := WalkFrom(accept, split, files, dirs, es);
      var p := es[0];
      var handed := p in files && accept(p);
      var files', dirs' := files, dirs;
      if handed {
        var r := split(files, dirs, p);
        if r.2.Fatal? {
          return;
        }
        files', dirs' := r.0, r.1;
      }
      var v := WalkFrom(accept, split, files', dirs', es[1..]);
      WalkLeavesFiles(accept, split, files', dirs', es[1..]);
      var ps := if handed then [p] else [];
      assert w.processed == ps + v.processed && w.files == v.files;
      FilesJoin(ps, v.processed, w.files);
    }
  }

  /**
   * Entry by entry: every entry a walk examined that was a regular file
   * passing the test when the walk started was handed over.
   */
  lemma {:induction false} WalkCovers(accept: string -> bool, split: Splitting, files: map<string, Contents>,
                                      dirs: set<string>, es: seq<string>)
    requires SplitGrows(split)
    ensures var w := WalkFrom(accept, split, files, dirs, es);
      && w.visited <= |es|
      && forall k :: 0 <= k < w.visited && es[k] in files && accept(es[k]) ==> es[k] in w.processed
    decreases |es|
  {
    if es != [] {
      var w := WalkFrom(accept, split, files, dirs, es);
      var p := es[0];
      var handed := p in files && accept(p);
      var files', dirs' := files, dirs;
      if handed {
        var r := split(files, dirs, p);
        if r.2.Fatal? {
          return;
        }
        files', dirs' := r.0, r.1;
      }
      var v := WalkFrom(accept, split, files', dirs', es[1..]);
      WalkCovers(accept, split, files', dirs', es[1..]);
      var ps := if handed then [p] else [];
      assert w.processed == ps + v.processed && w.visited == 1 + v.visited;
      forall k | 0 <= k < w.visited && es[k] in files && accept(es[k])
        ensures es[k] in w.processed
      {
        if k == 0 {
          assert w.processed[0] == p;
        } else {
          assert es[1..][k - 1] == es[k] && es[k] in files';
        }
      }
    }
  }

  /** The last file handed over by a walk that was preceded by others is its own last one. */
  lemma PrecededLast(ps: seq<string>, n: nat, w: Walk)
    requires |w.processed| > 0
    ensures var u := Preceded(ps, n, w);
      |u.processed| > 0 && u.processed[|u.processed| - 1] == w.processed[|w.processed| - 1]
  {
    var qs := ps + w.processed;
    assert qs[|qs| - 1] == w.processed[|w.processed| - 1];
  }

  /**
   * Where a walk ends: a completed walk examined every entry; a fatal one
   * ends at the entry whose split failed, which is the last file it handed
   * over.
   */
  lemma {:induction false} WalkStops(accept: string -> bool, split: Splitting, files: map<string, Contents>,
                                     dirs: set<string>, es: seq<string>)
    ensures var w := WalkFrom(accept, split, files, dirs, es);
      && (w.status == Completed ==> w.visited == |es|)
      && (w.status.Fatal? ==>
            && 0 < w.visited <= |es| && |w.processed| > 0
            && w.processed[|w.processed| - 1] == es[w.visited - 1])
    decreases |es|
  {
    if es != [] {
      var p := es[0];
      var handed := p in files && accept(p);
      var files', dirs' := files, dirs;
      if handed {
        var r := split(files, dirs, p);
        if r.2.Fatal? {
          return;
        }
        files', dirs' := r.0, r.1;
      }
      var v := WalkFrom(accept, split, files', dirs', es[1..]);
      WalkStops(accept, split, files', dirs', es[1..]);
      var ps := if handed then [p] else [];
      assert WalkFrom(accept, split, files, dirs, es) == Preceded(ps, 1, v);
      if v.status.Fatal? {
        PrecededLast(ps, 1, v);
        assert es[v.visited] == es[1..][v.visited - 1];
      }
    }
  }

  /** A fatal walk ends with a failure that `fails` admits for the last file it handed over. */
  lemma {:induction false} WalkFails(accept: string -> bool, split: Splitting, fails: (Failure, string) -> bool,
                                     files: map<string, Contents>, dirs: set<string>, es: seq<string>)
    requires SplitFailsWith(split, fails)
    ensures var w := WalkFrom(accept, split, files, dirs, es);
      w.status.Fatal? ==> |w.processed| > 0 && fails(w.status.failure, w.processed[|w.processed| - 1])
    decreases |es|
  {
    if es != [] {
      var p := es[0];
      var handed := p in files && accept(p);
      var files', dirs' := files, dirs;
      if handed {
        var r := split(files, dirs, p);
        if r.2.Fatal? {
          return;
        }
        files', dirs' := r.0, r.1;
      }
      var v := WalkFrom(accept, split, files', dirs', es[1..]);
      WalkFails(accept, split, fails, files', dirs', es[1..]);
      var ps := if handed then [p] else [];
      assert WalkFrom(accept, split, files, dirs, es) == Preceded(ps, 1, v);
      if v.status.Fatal? {
        PrecededLast(ps, 1, v);
      }
    }
  }

  /**
   * What a walk over the entry paths `es` with the test `accept` (the
   * `.mp3` test in the program) guarantees whatever the order of `es`:
   * every file handed to the splitter is an entry that is a regular file
   * and passed the test; a completed walk handed over every entry that was
   * a regular file passing it at the start; a fatal walk ends with a
   * failure `fails` admits for the last file it handed over.
   */
  ghost predicate Walked(accept: string -> bool, fails: (Failure, string) -> bool, before: map<string, Contents>,
                         after: map<string, Contents>, es: seq<string>, status: Status, processed: seq<string>)
  {
    && AllPass(accept, processed) && AllFiles(processed, after) && Among(processed, es)
    && (status == Completed ==> forall p :: p in Selected(Candidates(accept, before), es) ==> p in processed)
    && (status.Fatal? ==> |processed| > 0 && fails(status.failure, processed[|processed| - 1]))
  }

  lemma AmongPrefix(ps: seq<string>, es: seq<string>, n: nat)
    requires n <= |es| && Among(ps, es[..n])
    ensures Among(ps, es)
  {
    forall k | 0 <= k < |ps|
      ensures ps[k] in es
    {
      var j :| 0 <= j < n && es[..n][j] == ps[k];
      assert es[j] == ps[k];
    }
  }

  lemma CoversSelected(accept: string -> bool, files: map<string, Contents>, es: seq<string>, ps: seq<string>)
    requires forall k :: 0 <= k < |es| && es[k] in files && accept(es[k]) ==> es[k] in ps
    ensures forall p :: p in Selected(Candidates(accept, files), es) ==> p in ps
  {
    forall q | q in Selected(Candidates(accept, files), es)
      ensures q in ps
    {
      var k :| 0 <= k < |es| && es[k] == q && q in Candidates(accept, files);
    }
  }

  /** Every walk, from any state, keeps the guarantees of Walked. */
  lemma WalkFromWalked(accept: string -> bool, split: Splitting, fails: (Failure, string) -> bool,
                       files: map<string, Contents>, dirs: set<string>, es: seq<string>)
    requires SplitGrows(split) && SplitFailsWith(split, fails)
    ensures var w := WalkFrom(accept, split, files, dirs, es);
      Walked(accept, fails, files, w.files, es, w.status, w.processed)
  {
    var w := WalkFrom(accept, split, files, dirs, es);
    WalkHandsOver(accept, split, files, dirs, es);
    WalkLeavesFiles(accept, split, files, dirs, es);
    WalkCovers(accept, split, files, dirs, es);
    WalkStops(accept, split, files, dirs, es);
    WalkFails(accept, split, fails, files, dirs, es);
    AmongPrefix(w.processed, es, w.visited);
    if w.status == Completed {
      assert es[..w.visited] == es;
      CoversSelected(accept, files, es, w.processed);
    }
  }

  /**
   * One turn of the loop of `iterate_on_a_directory`: a regular file that
   * passes the `.mp3` test is handed to the splitter, with the effect
   * SplitResult gives; anything else is skipped and nothing changes.
   */
  method VisitEntry(fs: Fs, codec: Codec, fileName: string, duration: nat, overwrite: bool)
    returns (status: Status, handed: bool)
    requires fs.Valid()
    requires duration > 0
    modifies fs
    ensures fs.Valid()
    ensures handed <==> old(fs.IsFile(fileName)) && IsMp3(fileName)
    ensures handed ==>
      (fs.files, fs.dirs, status) == ProgramSplit(codec, duration, overwrite)(old(fs.files), old(fs.dirs), fileName)
    ensures !handed ==> status == Completed && fs.files == old(fs.files) && fs.dirs == old(fs.dirs)
  {
    handed := false;
    status := Completed;
    if fs.IsFile(fileName) {
      var fileExtension := SplitExt(fileName).1;
      if LowerAscii(fileExtension) == ".mp3" {
        assert IsMp3(fileName);
        handed := true;
        ghost var files0, dirs0 := fs.files, fs.dirs;
        status := SequentialSplit(fs, codec, fileName, duration, overwrite);
        assert (fs.files, fs.dirs, status) == SplitResult(files0, dirs0, codec, fileName, duration, overwrite);
      }
      // any other extension is logged and ignored
    }
  }

  /**
   * `iterate_on_a_directory(directory, duration)`, with `listing` the names
   * `os.listdir(directory)` returned, in its order. `processed` lists the
   * files handed to the splitter, in order, and `visited` counts the
   * listed entries examined. The new state and all three are those of
   * WalkFrom over the entry paths, so: only regular files that pass the
   * `.mp3` test are handed over; a completed walk examined every entry and
   * handed over every regular `.mp3` file among them; a fatal split ends
   * the walk at its entry, with no later entry handed over; and no file is
   * lost or changed against the guarantees of a split.
   */
  method IterateOnADirectory(fs: Fs, codec: Codec, directory: string, listing: seq<string>, duration: nat,
                             overwrite: bool)
    returns (status: Status, processed: seq<string>, visited: nat)
    requires fs.Valid()
    requires duration > 0
    modifies fs
    ensures fs.Valid()
    ensures Walk(fs.files, fs.dirs, status, processed, visited) ==
            WalkFrom(IsMp3, ProgramSplit(codec, duration, overwrite), old(fs.files), old(fs.dirs),
                     Entries(directory, listing))
    ensures var es := Entries(directory, listing);
      var w := WalkFrom(IsMp3, ProgramSplit(codec, duration, overwrite), old(fs.files), old(fs.dirs), es);
      && Walked(IsMp3, ProgramFailure(codec, duration), old(fs.files), w.files, es, w.status, w.processed)
      && Ended(es, w)
      && SplitGuarantees(old(fs.files), w.files, overwrite) && KeepsNonMp3(old(fs.files), w.files)
  {
    status, processed, visited := VisitEntries(fs, codec, directory, listing, duration, overwrite);
    ProgramWalk(codec, duration, overwrite, old(fs.files), old(fs.dirs), Entries(directory, listing));
  }

  /** One turn of the walk that splits entry `idx`: a failed split ends the walk, any other goes on. */
  lemma WalkStepSplits(accept: string -> bool, split: Splitting, files: map<string, Contents>, dirs: set<string>,
                       es: seq<string>, idx: nat, ps: seq<string>, whole: Walk,
                       files': map<string, Contents>, dirs': set<string>, status: Status)
    requires idx < |es| && es[idx] in files && accept(es[idx])
    requires (files', dirs', status) == split(files, dirs, es[idx])
    requires whole == Preceded(ps, idx, WalkFrom(accept, split, files, dirs, es[idx..]))
    ensures status.Fatal? ==> whole == Walk(files', dirs', status, ps + [es[idx]], idx + 1)
    ensures !status.Fatal? ==>
      whole == Preceded(ps + [es[idx]], idx + 1, WalkFrom(accept, split, files', dirs', es[idx + 1..]))
  {
    WalkSplits(accept, split, files, dirs, es, idx);
    if !status.Fatal? {
      PrecededTwice(ps, idx, [es[idx]], 1, WalkFrom(accept, split, files', dirs', es[idx + 1..]));
    }
  }

  /** One turn of the walk that skips entry `idx`. */
  lemma WalkStepSkips(accept: string -> bool, split: Splitting, files: map<string, Contents>, dirs: set<string>,
                      es: seq<string>, idx: nat, ps: seq<string>, whole: Walk)
    requires idx < |es| && !(es[idx] in files && accept(es[idx]))
    requires whole == Preceded(ps, idx, WalkFrom(accept, split, files, dirs, es[idx..]))
    ensures whole == Preceded(ps, idx + 1, WalkFrom(accept, split, files, dirs, es[idx + 1..]))
  {
    WalkSkips(accept, split, files, dirs, es, idx);
    PrecededTwice(ps, idx, [], 1, WalkFrom(accept, split, files, dirs, es[idx + 1..]));
    assert ps + [] == ps;
  }

  /**
   * The loop of `iterate_on_a_directory`: the entries in listing order,
   * each visited by VisitEntry, until a split fails. The new state and the
   * results are those of WalkFrom over the entry paths.
   */
  method VisitEntries(fs: Fs, codec: Codec, directory: string, listing: seq<string>, duration: nat,
                      overwrite: bool)
    returns (status: Status, processed: seq<string>, visited: nat)
    requires fs.Valid()
    requires duration > 0
    modifies fs
    ensures fs.Valid()
    ensures Walk(fs.files, fs.dirs, status, processed, visited) ==
            WalkFrom(IsMp3, ProgramSplit(codec, duration, overwrite), old(fs.files), old(fs.dirs),
                     Entries(directory, listing))
  {
    ghost var entries := Entries(directory, listing);
    ghost var split := ProgramSplit(codec, duration, overwrite);
    ghost var whole := WalkFrom(IsMp3, split, fs.files, fs.dirs, entries);
    processed := [];
    status := Completed;
    for idx := 0 to |listing|
      invariant fs.Valid() && status == Completed
      invariant whole == Preceded(processed, idx, WalkFrom(IsMp3, split, fs.files, fs.dirs, entries[idx..]))
    {
      var fileName := Join(directory, listing[idx]);
      assert fileName == entries[idx];
      ghost var files1, dirs1, processed1 := fs.files, fs.dirs, processed;
      var handed;
      status, handed := VisitEntry(fs, codec, fileName, duration, overwrite);
      if handed {
        processed := processed + [fileName];
        WalkStepSplits(IsMp3, split, files1, dirs1, entries, idx, processed1, whole, fs.files, fs.dirs, status);
        if status.Fatal? {
          visited := idx + 1;
          return;
        }
      } else {
        WalkStepSkips(IsMp3, split, files1, dirs1, entries, idx, processed, whole);
      }
    }
    visited := |listing|;
    assert entries[|listing|..] == [];
    assert processed + [] == processed;
  }

  /** WalkGuarantees for the program's own split, .mp3 test and failures. */
  lemma ProgramWalk(codec: Codec, duration: nat, overwrite: bool, files: map<string, Contents>,
                    dirs: set<string>, es: seq<string>)
    requires duration > 0
    ensures var w := WalkFrom(IsMp3, ProgramSplit(codec, duration, overwrite), files, dirs, es);
      && Walked(IsMp3, ProgramFailure(codec, duration), files, w.files, es, w.status, w.processed)
      && Ended(es, w)
      && SplitGuarantees(files, w.files, overwrite) && KeepsNonMp3(files, w.files)
  {
    ProgramSplitSafe(codec, duration, overwrite);
    WalkGuarantees(ProgramSplit(codec, duration, overwrite), ProgramFailure(codec, duration), files, dirs, es,
                   overwrite);
  }

  /**
   * Where a walk over `es` ended: it handed over only entries it examined,
   * a completed walk examined every entry, and a fatal one ended at the
   * entry whose split failed, the last file it handed over, so that no
   * later entry was handed over.
   */
  predicate Ended(es: seq<string>, w: Walk)
  {
    && w.visited <= |es| && Among(w.processed, es[..w.visited])
    && (w.status == Completed ==> w.visited == |es|)
    && (w.status.Fatal? ==>
          0 < w.visited && |w.processed| > 0 && w.processed[|w.processed| - 1] == es[w.visited - 1])
  }

  lemma WalkEnds(accept: string -> bool, split: Splitting, files: map<string, Contents>, dirs: set<string>,
                 es: seq<string>)
    ensures Ended(es, WalkFrom(accept, split, files, dirs, es))
  {
    WalkStops(accept, split, files, dirs, es);
    WalkHandsOver(accept, split, files, dirs, es);
  }

  /** The lemmas about a walk, taken together. */
  lemma WalkGuarantees(split: Splitting, fails: (Failure, string) -> bool, files: map<string, Contents>,
                       dirs: set<string>, es: seq<string>, overwrite: bool)
    requires SplitKeeps(split, overwrite) && SplitGrows(split) && SplitFailsWith(split, fails)
    ensures var w := WalkFrom(IsMp3, split, files, dirs, es);
      && Walked(IsMp3, fails, files, w.files, es, w.status, w.processed)
      && Ended(es, w)
      && SplitGuarantees(files, w.files, overwrite) && KeepsNonMp3(files, w.files)
  {
    WalkKeeps(IsMp3, split, files, dirs, es, overwrite);
    WalkEnds(IsMp3, split, files, dirs, es);
    WalkFromWalked(IsMp3, split, fails, files, dirs, es);
  }
}
