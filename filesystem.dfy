/**
 * The part of the file system mp3split touches: regular files with their
 * contents and directories, both keyed by path. `os.path.exists`,
 * `os.path.isfile`, `os.path.isdir`, `os.mkdir` and pydub's `export` act on it.
 */
module FileSystem {
  import opened Paths
  import opened Segmentation

  /**
   * What a file holds: the encoding of a range of some source track (what
   * `export` writes), or bytes that were there before the run.
   */
  datatype Contents = Encoded(source: string, segment: Segment) | Bytes(data: seq<bv8>)

  /**
   * The path before the last '/' of `p`, the directory an entry at `p` is
   * created in, is a regular file: nothing can be created at `p` then.
   */
  predicate UnderFile(files: map<string, Contents>, p: string)
  {
    var i := LastIndexOf(p, '/');
    0 < i && p[..i] in files
  }

  class Fs {
    var files: map<string, Contents>
    var dirs: set<string>

    /** No path is both a regular file and a directory. */
    ghost predicate Valid()
      reads this
    {
      files.Keys !! dirs
    }

    constructor (files0: map<string, Contents>, dirs0: set<string>)
      requires files0.Keys !! dirs0
      ensures Valid()
      ensures files == files0 && dirs == dirs0
    {
      files := files0;
      dirs := dirs0;
    }

    /** `os.path.exists` */
    predicate Exists(p: string)
      reads this
    {
      p in files || p in dirs
    }

    /** `os.path.isfile` */
    predicate IsFile(p: string)
      reads this
    {
      p in files
    }

    /** `os.path.isdir` */
    predicate IsDir(p: string)
      reads this
    {
      p in dirs
    }

    /** `os.mkdir`: refused (FileExistsError) when anything already has that path. */
    method Mkdir(p: string) returns (created: bool)
      requires Valid()
      modifies this
      ensures Valid()
      ensures created <==> !old(Exists(p))
      ensures files == old(files)
      ensures dirs == if created then old(dirs) + {p} else old(dirs)
    {
      created := !Exists(p);
      if created {
        dirs := dirs + {p};
      }
    }

    /**
     * `export(name)`: writes `c` to `name`, replacing what was there. It
     * fails on a directory and on every path in `unwritable`, the paths the
     * encoder cannot write; a failed export changes nothing.
     */
    method Export(name: string, c: Contents, unwritable: set<string>) returns (ok: bool)
      requires Valid()
      modifies this
      ensures Valid()
      ensures ok <==> name !in unwritable && name !in old(dirs) && !UnderFile(old(files), name)
      ensures dirs == old(dirs)
      ensures files == if ok then old(files)[name := c] else old(files)
    {
      ok := name !in unwritable && name !in dirs && !UnderFile(files, name);
      if ok {
        files := files[name := c];
      }
    }
  }
}
