/**
 * Building the watch set: `watch`, `watchDir` and the root dispatch of
 * `startWatching`.  The watcher itself is left abstract; each function returns
 * the sequence of paths it registers, in the order it registers them.
 */
module WatchSet {
  import opened Results
  import opened FileSystem
  import opened Scanner

  /** The watcher accepts `p`: it exists, the system lets it be inspected, and
      the watcher does not refuse it. */
  predicate Watchable(fs: Fs, p: Path)
  {
    p in fs && !fs[p].Unstatable? && fs[p].add.Success?
  }

  /** `watch`: register one path.  A path that no longer exists is skipped
      silently, any other refusal (a failing stat, or the watcher refusing the
      path) is logged; either way nothing is registered. */
  function Watch(fs: Fs, p: Path): (w: seq<Path>)
    ensures p !in fs ==> w == []
    ensures forall q :: q in w ==> q == p
    ensures p in w <==> p in fs && !fs[p].Unstatable? && fs[p].add.Success?
    ensures p in fs && !fs[p].Unstatable? && fs[p].add.Failure? ==> w == []
  {
    match AddWatch(fs, p)
    case Failure(_) => []
    case Success(_) => [p]
  }

  /** `watchDir`: register every directory below `p` that the walk reaches,
      children before parents, and `p` itself last.  A child whose joined path is
      excluded is neither registered nor entered; a child that is not a directory
      is not registered.  When listing `p` says it does not exist nothing at all is
      registered; when listing fails otherwise, `p` alone is. */
  function WatchDir(fs: Fs, ex: Path -> bool, p: Path): (w: seq<Path>)
    ensures forall r :: r in w ==> p <= r
    ensures forall r :: r in w && r != p ==> r in fs && fs[r].Directory? && !ex(r)
    ensures p !in fs ==> w == []
    ensures Watchable(fs, p) ==> |w| > 0 && w[|w| - 1] == p
    decreases Below(fs, p), 1, 0
  {
    match ReadDir(fs, p)
    case Failure(NotExist) => []
    case Failure(_) => Watch(fs, p)
    case Success(names) => WatchChildren(fs, ex, p, names) + Watch(fs, p)
  }

  /** The loop of `watchDir` over the listed `names` of `p`, in listing order. */
  function WatchChildren(fs: Fs, ex: Path -> bool, p: Path, names: seq<Name>): (w: seq<Path>)
    ensures forall r :: r in w ==> p < r && r[|p|] in names
    ensures forall r :: r in w ==> r in fs && fs[r].Directory? && !ex(r)
    decreases Below(fs, p), 0, |names|
  {
    if names == [] then []
    else
      var sub := p + [names[0]];
      var here :=
        if ex(sub) then []
        else if IsDir(fs, sub) == Success(true) then (BelowShrinks(fs, p, sub); WatchDir(fs, ex, sub))
        else [];
      here + WatchChildren(fs, ex, p, names[1..])
  }

  /** `startWatching`'s dispatch on the root: a directory is walked, anything else
      is registered directly, and a failing `isDir` is fatal.  The root itself is
      never tested against the exclusion pattern. */
  function StartWatching(fs: Fs, ex: Path -> bool, root: Path): (r: Result<seq<Path>, Error>)
    ensures r.Failure? <==> root in fs && fs[root].Unstatable?
    ensures r.Success? ==> forall q :: q in r.value <==> Reaches(fs, ex, root, q) && Watchable(fs, q)
    ensures r.Success? && ListingsDistinct(fs) ==> PostOrdered(r.value)
    ensures r.Success? && Watchable(fs, root) ==> |r.value| > 0 && r.value[|r.value| - 1] == root
  {
    match IsDir(fs, root)
    case Failure(e) => Failure(e)
    case Success(true) =>
      WatchDirRegistersReachable(fs, ex, root);
      WatchDirPostOrderWhenDistinct(fs, ex, root);
      Success(WatchDir(fs, ex, root))
    case Success(false) => NothingReachedBelowNonDirectory(fs, ex, root); Success(Watch(fs, root))
  }

  // ---------------------------------------------------------------------------
  // What the walk reaches, stated without recursion.

  /** The walk enters `q`: `q`'s parent lists it, `q` is not excluded, and `q` is
      a directory. */
  ghost predicate Descends(fs: Fs, ex: Path -> bool, q: Path)
  {
    && |q| > 0
    && ReadDir(fs, Dir(q)).Success?
    && q[|q| - 1] in ReadDir(fs, Dir(q)).value
    && !ex(q)
    && q in fs && fs[q].Directory?
  }

  /** A walk started at `p` arrives at `r`: `r` is `p` or lies below it, and every
      step from `p` down to `r` is one the walk takes. */
  ghost predicate Reaches(fs: Fs, ex: Path -> bool, p: Path, r: Path)
  {
    p <= r && forall m :: |p| < m <= |r| ==> Descends(fs, ex, r[..m])
  }

  /** Reaching a strict descendant is one step to the child on the way, then a
      walk from that child. */
  lemma ReachesStep(fs: Fs, ex: Path -> bool, p: Path, r: Path)
    requires p < r
    ensures Reaches(fs, ex, p, r) <==> Descends(fs, ex, r[..|p| + 1]) && Reaches(fs, ex, r[..|p| + 1], r)
  {
  }

  /** Below a path that is not a listable directory, the walk reaches nothing. */
  lemma NothingReachedBelowNonDirectory(fs: Fs, ex: Path -> bool, p: Path)
    requires ReadDir(fs, p).Failure?
    ensures forall r :: Reaches(fs, ex, p, r) ==> r == p
  {
    forall r | p < r
      ensures !Reaches(fs, ex, p, r)
    {
      var c := r[..|p| + 1];
      assert Dir(c) == p;
      assert !Descends(fs, ex, c);
    }
  }

  /** Below a listable directory, the walk's first step goes to a listed,
      non-excluded child directory. */
  lemma ReachesThroughChild(fs: Fs, ex: Path -> bool, p: Path, names: seq<Name>, r: Path)
    requires ReadDir(fs, p) == Success(names) && p < r
    ensures Reaches(fs, ex, p, r)
        <==> r[|p|] in names && !ex(r[..|p| + 1]) && IsDir(fs, r[..|p| + 1]) == Success(true)
             && Reaches(fs, ex, r[..|p| + 1], r)
  {
    ReachesStep(fs, ex, p, r);
    var c := r[..|p| + 1];
    assert Dir(c) == p;
    assert c[|c| - 1] == r[|p|];
  }

  /** `watchDir` registers exactly the watchable paths its walk reaches. */
  lemma {:induction false} WatchDirMembership(fs: Fs, ex: Path -> bool, p: Path, r: Path)
    ensures r in WatchDir(fs, ex, p) <==> Reaches(fs, ex, p, r) && Watchable(fs, r)
    decreases Below(fs, p), 1, 0
  {
    match ReadDir(fs, p)
    case Failure(_) =>
      NothingReachedBelowNonDirectory(fs, ex, p);
    case Success(names) =>
      assert WatchDir(fs, ex, p) == WatchChildren(fs, ex, p, names) + Watch(fs, p);
      WatchChildrenMembership(fs, ex, p, names, r);
      if p < r {
        ReachesThroughChild(fs, ex, p, names, r);
        assert r !in Watch(fs, p);
        assert r in WatchChildren(fs, ex, p, names) <==> Reaches(fs, ex, p, r) && Watchable(fs, r);
      } else if r == p {
        assert Reaches(fs, ex, p, r);
        assert r !in WatchChildren(fs, ex, p, names);
      } else {
        assert !Reaches(fs, ex, p, r);
        assert r !in WatchChildren(fs, ex, p, names);
        assert r !in Watch(fs, p);
      }
  }

  /** The loop over `names` registers exactly the watchable paths reached through
      a listed, non-excluded child directory. */
  lemma {:induction false} WatchChildrenMembership(fs: Fs, ex: Path -> bool, p: Path, names: seq<Name>, r: Path)
    ensures r in WatchChildren(fs, ex, p, names)
        <==> p < r && r[|p|] in names && !ex(r[..|p| + 1]) && IsDir(fs, r[..|p| + 1]) == Success(true)
             && Reaches(fs, ex, r[..|p| + 1], r) && Watchable(fs, r)
    decreases Below(fs, p), 0, |names|
  {
    if names != [] {
      var sub := p + [names[0]];
      WatchChildrenMembership(fs, ex, p, names[1..], r);
      if !ex(sub) && IsDir(fs, sub) == Success(true) {
        BelowShrinks(fs, p, sub);
        WatchDirMembership(fs, ex, sub, r);
      }
      if p < r && r[|p|] == names[0] {
        assert r[..|p| + 1] == sub;
      }
      if sub <= r {
        assert r[|p|] == names[0];
      }
    }
  }

  /** Quantified form of `WatchDirMembership`. */
  lemma WatchDirRegistersReachable(fs: Fs, ex: Path -> bool, p: Path)
    ensures forall r :: r in WatchDir(fs, ex, p) <==> Reaches(fs, ex, p, r) && Watchable(fs, r)
  {
    forall r | true
      ensures r in WatchDir(fs, ex, p) <==> Reaches(fs, ex, p, r) && Watchable(fs, r)
    {
      WatchDirMembership(fs, ex, p, r);
    }
  }

  /** No registered path lies under an excluded child of the walk's start, nor is
      one itself, unless it is the start. */
  lemma WatchDirSkipsExcluded(fs: Fs, ex: Path -> bool, p: Path, r: Path, m: nat)
    requires r in WatchDir(fs, ex, p)
    requires |p| < m <= |r|
    ensures !ex(r[..m]) && r[..m] in fs && fs[r[..m]].Directory?
  {
    WatchDirMembership(fs, ex, p, r);
    assert Descends(fs, ex, r[..m]);
  }

  // ---------------------------------------------------------------------------
  // Registration order.

  /** No registered path comes before one of its descendants, and none is
      registered twice. */
  ghost predicate PostOrdered(w: seq<Path>)
  {
    forall i, j :: 0 <= i < j < |w| ==> !(w[i] <= w[j])
  }

  /** A listing without repeated names, as `ReadDir` returns. */
  ghost predicate Distinct(names: seq<Name>)
  {
    forall i, j :: 0 <= i < j < |names| ==> names[i] != names[j]
  }

  /** Every successful listing in the snapshot is free of repeats. */
  ghost predicate ListingsDistinct(fs: Fs)
  {
    forall q :: q in fs && fs[q].Directory? && fs[q].listing.Success? ==> Distinct(fs[q].listing.value)
  }

  lemma PostOrderedConcat(a: seq<Path>, b: seq<Path>)
    requires PostOrdered(a) && PostOrdered(b)
    requires forall x, y :: x in a && y in b ==> !(x <= y)
    ensures PostOrdered(a + b)
  {
    forall i, j | 0 <= i < j < |a + b|
      ensures !((a + b)[i] <= (a + b)[j])
    {
      if j < |a| {
        assert (a + b)[i] == a[i] && (a + b)[j] == a[j];
      } else if i >= |a| {
        assert (a + b)[i] == b[i - |a|] && (a + b)[j] == b[j - |a|];
      } else {
        assert (a + b)[i] in a && (a + b)[j] in b;
      }
    }
  }

  /** `watchDir` registers each directory after all of its registered
      subdirectories, and registers no path twice. */
  lemma {:induction false} WatchDirPostOrder(fs: Fs, ex: Path -> bool, p: Path)
    requires ListingsDistinct(fs)
    ensures PostOrdered(WatchDir(fs, ex, p))
    decreases Below(fs, p), 1, 0
  {
    match ReadDir(fs, p)
    case Failure(_) =>
    case Success(names) =>
      assert Distinct(names);
      WatchChildrenPostOrder(fs, ex, p, names);
      PostOrderedConcat(WatchChildren(fs, ex, p, names), Watch(fs, p));
  }

  /** `WatchDirPostOrder` stated for every snapshot, conditional on its listings. */
  lemma WatchDirPostOrderWhenDistinct(fs: Fs, ex: Path -> bool, p: Path)
    ensures ListingsDistinct(fs) ==> PostOrdered(WatchDir(fs, ex, p))
  {
    if ListingsDistinct(fs) {
      WatchDirPostOrder(fs, ex, p);
    }
  }

  lemma {:induction false} WatchChildrenPostOrder(fs: Fs, ex: Path -> bool, p: Path, names: seq<Name>)
    requires ListingsDistinct(fs) && Distinct(names)
    ensures PostOrdered(WatchChildren(fs, ex, p, names))
    decreases Below(fs, p), 0, |names|
  {
    if names != [] {
      var sub := p + [names[0]];
      var here :=
        if ex(sub) then []
        else if IsDir(fs, sub) == Success(true) then WatchDir(fs, ex, sub)
        else [];
      var rest := WatchChildren(fs, ex, p, names[1..]);
      assert WatchChildren(fs, ex, p, names) == here + rest;
      if !ex(sub) && IsDir(fs, sub) == Success(true) {
        BelowShrinks(fs, p, sub);
        WatchDirPostOrder(fs, ex, sub);
      }
      assert Distinct(names[1..]);
      WatchChildrenPostOrder(fs, ex, p, names[1..]);
      forall x, y | x in here && y in rest
        ensures !(x <= y)
      {
        assert sub <= x;
        assert x[|p|] == names[0];
        assert y[|p|] in names[1..];
        assert x[|p|] != y[|p|];
      }
      PostOrderedConcat(here, rest);
    }
  }
}
