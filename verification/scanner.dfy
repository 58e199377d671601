/**
 * `isDir` and `modTime`: the two questions the watcher asks of a single path.
 */
module Scanner {
  import opened Results
  import opened FileSystem

  /** `isDir`: a path that does not exist is "not a directory", not an error;
      any other stat failure is passed on. */
  function IsDir(fs: Fs, p: Path): (r: Result<bool, Error>)
    ensures r == Success(true) <==> p in fs && fs[p].Directory?
    ensures r == Success(false) <==> p !in fs || fs[p].File?
    ensures r.Failure? <==> p in fs && fs[p].Unstatable?
    ensures r.Failure? ==> r.error == Os(fs[p].cause)
  {
    match Stat(fs, p)
    case Failure(NotExist) => Success(false)
    case Failure(e) => Failure(e)
    case Success(info) => Success(info.isDir)
  }

  /** The timestamp an existing entry stands for: its own modification time, or
      the error `stat` gives for it. */
  function EntryTime(e: Entry): Result<int, Error>
  {
    if e.Unstatable? then Failure(Os(e.cause)) else Success(e.mtime)
  }

  /** `modTime`: the modification time of `p`, or -- when `p` does not exist --
      of its parent, walking up until something exists.  It fails when the walk
      reaches the base without finding anything, and when a stat on the way fails
      for a reason other than "does not exist". */
  function ModTime(fs: Fs, p: Path): (r: Result<int, Error>)
    ensures p in fs ==> r == EntryTime(fs[p])
    ensures r != Failure(NotExist)
    ensures r.Failure? && r.error.NoDirectoryFor? ==> r.error.path == [] && [] !in fs
    decreases |p|
  {
    match Stat(fs, p)
    case Failure(NotExist) =>
      var q := Dir(p);
      if q == p then Failure(NoDirectoryFor(p)) else ModTime(fs, q)
    case Failure(e) => Failure(e)
    case Success(info) => Success(info.modTime)
  }

  /** The `Dir` chain from `p` visits exactly the prefixes of `p`, longest first:
      if the prefixes longer than `n` are all missing and `p[..n]` exists, the
      walk answers with `p[..n]`. */
  lemma {:induction false} ModTimeNearestAncestor(fs: Fs, p: Path, n: nat)
    requires n <= |p| && p[..n] in fs
    requires forall m :: n < m <= |p| ==> p[..m] !in fs
    ensures ModTime(fs, p) == EntryTime(fs[p[..n]])
    decreases |p|
  {
    if n == |p| {
      assert p[..n] == p;
    } else {
      assert p[..|p|] == p;
      assert p !in fs;
      var q := Dir(p);
      assert q == p[..|p| - 1];
      forall m | n < m <= |q|
        ensures q[..m] !in fs
      {
        assert q[..m] == p[..m];
      }
      assert q[..n] == p[..n];
      ModTimeNearestAncestor(fs, q, n);
    }
  }

  /** The walk fails for want of a directory exactly when no prefix of `p`
      (down to the base) exists. */
  lemma {:induction false} ModTimeNoAncestor(fs: Fs, p: Path)
    ensures (forall m :: 0 <= m <= |p| ==> p[..m] !in fs)
        <==> ModTime(fs, p) == Failure(NoDirectoryFor([]))
    decreases |p|
  {
    if |p| == 0 {
      assert p[..0] == p;
    } else {
      var q := Dir(p);
      assert q == p[..|p| - 1];
      assert p[..|p|] == p;
      ModTimeNoAncestor(fs, q);
      if p !in fs {
        assert ModTime(fs, p) == ModTime(fs, q);
        assert (forall m :: 0 <= m <= |q| ==> q[..m] !in fs)
            <==> (forall m :: 0 <= m <= |p| ==> p[..m] !in fs)
        by {
          forall m | 0 <= m <= |q| ensures q[..m] == p[..m] { }
        }
      }
    }
  }
}
