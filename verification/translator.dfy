/**
 * The body of `sendChanges`: each notification event is turned into a
 * timestamp for the main loop, and a directory that was just created is added
 * to the watch set.
 */
module Translator {
  import opened Results
  import opened FileSystem
  import opened Scanner
  import opened WatchSet

  /** The notification watcher's operation bit set. */
  type Op = bv32

  const Create: Op := 1
  const Write: Op := 2
  const Remove: Op := 4
  const Rename: Op := 8
  const Chmod: Op := 16

  /** A notification: the path it is about and the operations that happened. */
  datatype Event = Event(name: Path, op: Op)

  predicate IsCreate(op: Op)
  {
    (op & Create) != 0
  }

  /** What one event produces: the timestamp sent to the main loop, if any, and
      the paths newly registered with the watcher, in order. */
  datatype Yield = Yield(time: Option<int>, added: seq<Path>)

  /**
   * One pass of the `sendChanges` loop.  `seen` is the filesystem as `modTime`
   * finds it; `now` is the filesystem a moment later, as `isDir` and `watchDir`
   * find it.  An event whose timestamp cannot be resolved is dropped, and so is
   * a creation whose `isDir` check fails; every other event sends exactly its
   * resolved timestamp.  Only a creation of a directory extends the watch set,
   * and the new directory is walked without first being tested against the
   * exclusion pattern.
   */
  function Translate(seen: Fs, now: Fs, ex: Path -> bool, ev: Event): (y: Yield)
    ensures y.time.Some?
        <==> ModTime(seen, ev.name).Success? && !(IsCreate(ev.op) && ev.name in now && now[ev.name].Unstatable?)
    ensures y.time.Some? ==> ModTime(seen, ev.name) == Success(y.time.value)
    ensures forall q :: (q in y.added
        <==> y.time.Some? && IsCreate(ev.op) && ev.name in now && now[ev.name].Directory?
             && Reaches(now, ex, ev.name, q) && Watchable(now, q))
    ensures y.time.Some? && IsCreate(ev.op) && ev.name in now && now[ev.name].Directory?
            && now[ev.name].add.Success?
        ==> |y.added| > 0 && y.added[|y.added| - 1] == ev.name
  {
    match ModTime(seen, ev.name)
    case Failure(_) => Yield(None, [])
    case Success(t) =>
      if IsCreate(ev.op) then
        match IsDir(now, ev.name)
        case Failure(_) => Yield(None, [])
        case Success(isdir) =>
          if isdir then WatchDirRegistersReachable(now, ex, ev.name); Yield(Some(t), WatchDir(now, ex, ev.name))
          else Yield(Some(t), [])
      else Yield(Some(t), [])
  }

  /** Whether an event reaches the main loop does not depend on the exclusion
      pattern: the pattern only limits which directories get watched. */
  lemma TimeIgnoresExclusion(seen: Fs, now: Fs, ex1: Path -> bool, ex2: Path -> bool, ev: Event)
    ensures Translate(seen, now, ex1, ev).time == Translate(seen, now, ex2, ev).time
  {
  }

  /** An event together with the two snapshots its handling observes. */
  datatype Observation = Observation(seen: Fs, now: Fs, ev: Event)

  /** The timestamps one yield sends: none or one. */
  function Sent(y: Yield): seq<int>
  {
    if y.time.Some? then [y.time.value] else []
  }

  /** The timestamps a run of `sendChanges` sends, in order. */
  ghost function Emitted(ex: Path -> bool, obs: seq<Observation>): seq<int>
    decreases |obs|
  {
    if obs == [] then []
    else
      var o := obs[|obs| - 1];
      Emitted(ex, obs[..|obs| - 1]) + Sent(Translate(o.seen, o.now, ex, o.ev))
  }

  /** The paths a run of `sendChanges` registers, in order. */
  ghost function Registered(ex: Path -> bool, obs: seq<Observation>): seq<Path>
    decreases |obs|
  {
    if obs == [] then []
    else
      var o := obs[|obs| - 1];
      Registered(ex, obs[..|obs| - 1]) + Translate(o.seen, o.now, ex, o.ev).added
  }

  /** Every timestamp sent is the resolved time of one of the events. */
  lemma {:induction false} EmittedResolved(ex: Path -> bool, obs: seq<Observation>)
    ensures forall k :: 0 <= k < |Emitted(ex, obs)| ==>
      exists i :: 0 <= i < |obs| && ModTime(obs[i].seen, obs[i].ev.name) == Success(Emitted(ex, obs)[k])
    decreases |obs|
  {
    if obs != [] {
      var n := |obs| - 1;
      var front := obs[..n];
      EmittedResolved(ex, front);
      var sent := Sent(Translate(obs[n].seen, obs[n].now, ex, obs[n].ev));
      assert Emitted(ex, obs) == Emitted(ex, front) + sent;
      forall k | 0 <= k < |Emitted(ex, obs)|
        ensures exists i :: 0 <= i < |obs| && ModTime(obs[i].seen, obs[i].ev.name) == Success(Emitted(ex, obs)[k])
      {
        if k < |Emitted(ex, front)| {
          var i :| 0 <= i < |front| && ModTime(front[i].seen, front[i].ev.name) == Success(Emitted(ex, front)[k]);
          assert front[i] == obs[i];
        } else {
          assert ModTime(obs[n].seen, obs[n].ev.name) == Success(Emitted(ex, obs)[k]);
        }
      }
    } else {
      assert Emitted(ex, obs) == [];
    }
  }

  /** Handling one more event appends its yield to what was sent and registered. */
  lemma EmittedSnoc(ex: Path -> bool, obs: seq<Observation>, n: nat)
    requires n < |obs|
    ensures Emitted(ex, obs[..n + 1])
         == Emitted(ex, obs[..n]) + Sent(Translate(obs[n].seen, obs[n].now, ex, obs[n].ev))
    ensures Registered(ex, obs[..n + 1])
         == Registered(ex, obs[..n]) + Translate(obs[n].seen, obs[n].now, ex, obs[n].ev).added
  {
    assert obs[..n + 1][..n] == obs[..n];
  }

  /**
   * `sendChanges` over a finite stretch of events: the timestamps sent to the
   * main loop and the watch set after the events, starting from `watched`.  Each
   * sent timestamp is the resolved time of one of the events, the watch set only
   * grows, and no event sends more than once.
   */
  method SendChanges(ex: Path -> bool, obs: seq<Observation>, watched: seq<Path>)
    returns (times: seq<int>, watching: seq<Path>)
    ensures times == Emitted(ex, obs)
    ensures watching == watched + Registered(ex, obs)
    ensures watched <= watching
    ensures |times| <= |obs|
    ensures forall k :: 0 <= k < |times| ==>
      exists i :: 0 <= i < |obs| && ModTime(obs[i].seen, obs[i].ev.name) == Success(times[k])
  {
    times := [];
    watching := watched;
    var n := 0;
    while n < |obs|
      invariant n <= |obs|
      invariant times == Emitted(ex, obs[..n])
      invariant watching == watched + Registered(ex, obs[..n])
      invariant |times| <= n
    {
      var o := obs[n];
      var y := Translate(o.seen, o.now, ex, o.ev);
      EmittedSnoc(ex, obs, n);
      times := times + Sent(y);
      watching := watching + y.added;
      n := n + 1;
    }
    assert obs[..n] == obs;
    EmittedResolved(ex, obs);
  }
}
