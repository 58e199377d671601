/**
 * The abstract filesystem the watcher observes.  Each path maps to the outcome
 * `os.Stat` gives for it; a directory also carries what `ioutil.ReadDir` returns
 * for it.  The three primitives the program calls -- `os.Stat`, `ioutil.ReadDir`
 * and the notification watcher's `Add` -- are read off this map.
 */
module FileSystem {
  import opened Results

  type Name = string

  /**
   * A cleaned slash-separated path split into its segments.  The empty sequence
   * is the base the paths are named from ("." for a relative path, "/" for an
   * absolute one).  Sequence prefix (`<=`, `<`) is the ancestor relation.
   */
  type Path = seq<Name>

  /** `path.Dir`: drop the last segment; the base is its own parent. */
  function Dir(p: Path): Path
  {
    if |p| == 0 then p else p[..|p| - 1]
  }

  /** Failures the operating system can report, other than "does not exist". */
  datatype OsError = PermissionDenied | NotADirectory | IoError(code: int)

  /** The errors the program distinguishes: `os.IsNotExist`, any other OS error,
      and the one `modTime` makes up when it runs out of parents. */
  datatype Error = NotExist | Os(cause: OsError) | NoDirectoryFor(path: Path)

  /** What a path that exists is: a directory with its modification time and
      listing (or the error listing it gives), a plain file, or a path whose
      `stat` fails with an error other than "does not exist".  A directory or
      file also records what the notification watcher's `Add` answers for it:
      it can refuse a path that stats fine (no read permission, or the limit
      on the number of watches reached). */
  datatype Entry =
    | Directory(mtime: int, listing: Result<seq<Name>, OsError>, add: Result<(), OsError>)
    | File(mtime: int, add: Result<(), OsError>)
    | Unstatable(cause: OsError)

  /** A snapshot of the filesystem: a path absent from the map does not exist. */
  type Fs = map<Path, Entry>

  /** The part of `os.FileInfo` the program reads. */
  datatype Info = Info(isDir: bool, modTime: int)

  /** `os.Stat`. */
  function Stat(fs: Fs, p: Path): Result<Info, Error>
  {
    if p !in fs then Failure(NotExist)
    else match fs[p]
      case Directory(t, _, _) => Success(Info(true, t))
      case File(t, _) => Success(Info(false, t))
      case Unstatable(e) => Failure(Os(e))
  }

  /** `ioutil.ReadDir`: the names of a directory's entries, or the error.
      Reading a plain file fails with an error that is not "does not exist". */
  function ReadDir(fs: Fs, p: Path): Result<seq<Name>, Error>
  {
    if p !in fs then Failure(NotExist)
    else match fs[p]
      case Directory(_, Success(names), _) => Success(names)
      case Directory(_, Failure(e), _) => Failure(Os(e))
      case File(_, _) => Failure(Os(NotADirectory))
      case Unstatable(e) => Failure(Os(e))
  }

  /** The notification watcher's `Add`: it fails for a path that is gone, for
      one the system refuses to inspect, and for one it refuses to watch. */
  function AddWatch(fs: Fs, p: Path): Result<(), Error>
  {
    if p !in fs then Failure(NotExist)
    else match fs[p]
      case Unstatable(e) => Failure(Os(e))
      case Directory(_, _, Failure(e)) => Failure(Os(e))
      case File(_, Failure(e)) => Failure(Os(e))
      case _ => Success(())
  }

  /** The paths of the snapshot strictly below `p`: the measure that makes a
      recursive directory walk terminate. */
  ghost function Below(fs: Fs, p: Path): set<Path>
  {
    set q | q in fs && p < q
  }

  /** Descending into an existing strict descendant leaves strictly fewer paths below. */
  lemma BelowShrinks(fs: Fs, p: Path, c: Path)
    requires c in fs && p < c
    ensures Below(fs, c) < Below(fs, p)
  {
    assert c in Below(fs, p);
    assert c !in Below(fs, c);
    forall q | q in Below(fs, c)
      ensures q in Below(fs, p)
    {
      assert c < q;
      assert q[..|p|] == c[..|p|];
    }
  }
}
