/**
 * The `select` loop of `main`: the debounce timer and the decision to run the
 * command.  The loop's state is the completion time of the last run, the last
 * change timestamp received, and whether the timer is armed.  Time is counted
 * from Go's zero `time.Time`, so every clock reading is positive.
 */
module Debounce {

  /** `time.Time{}`, the value `lastRun` starts from. */
  const ZeroTime: int := 0

  datatype State = State(lastRun: int, lastChange: int, armed: bool)

  /** What the `select` can receive.  The command runner is left abstract: an
      input that may start a run carries the time at which that run would
      complete. */
  datatype Input =
    | Change(t: int)
    | Rerun(finish: int)
    | TimerFire(finish: int)

  /** The state before the loop's first iteration: the timer was created with a
      zero delay, `lastRun` is the zero time and `lastChange` the start time. */
  function Init(start: int): State
  {
    State(ZeroTime, start, true)
  }

  /** A timer only delivers a firing while it is armed. */
  predicate Enabled(s: State, i: Input)
  {
    i.TimerFire? ==> s.armed
  }

  /** The state after one iteration and whether the command was run in it. */
  datatype Transition = Transition(next: State, ran: bool)

  /**
   * One iteration of the loop.  A change overwrites `lastChange` and re-arms the
   * timer; a manual rerun runs the command whatever the state and leaves the
   * timer alone; a firing disarms the timer and runs the command exactly when the
   * last run finished before the last change.
   */
  function Step(s: State, i: Input): (tr: Transition)
    requires Enabled(s, i)
    ensures tr.ran <==> i.Rerun? || (i.TimerFire? && s.lastRun < s.lastChange)
    ensures tr.next.lastRun == (if tr.ran then i.finish else s.lastRun)
    ensures tr.next.lastChange == (if i.Change? then i.t else s.lastChange)
    ensures tr.next.armed <==> i.Change? || (s.armed && !i.TimerFire?)
  {
    match i
    case Change(t) => Transition(s.(lastChange := t, armed := true), false)
    case Rerun(f) => Transition(s.(lastRun := f), true)
    case TimerFire(f) =>
      if s.lastRun < s.lastChange then Transition(State(f, s.lastChange, false), true)
      else Transition(s.(armed := false), false)
  }

  /** Every input of the sequence can be delivered in the state it meets. */
  ghost predicate Feasible(s: State, inputs: seq<Input>)
    decreases |inputs|
  {
    inputs == [] || (Enabled(s, inputs[0]) && Feasible(Step(s, inputs[0]).next, inputs[1..]))
  }

  /** The end state of a stretch of iterations, and how many runs the timer and
      the manual trigger started on the way. */
  datatype Outcome = Outcome(final: State, timerRuns: nat, manualRuns: nat)

  function Execute(s: State, inputs: seq<Input>): Outcome
    requires Feasible(s, inputs)
    decreases |inputs|
  {
    if inputs == [] then Outcome(s, 0, 0)
    else
      var tr := Step(s, inputs[0]);
      var rest := Execute(tr.next, inputs[1..]);
      var byTimer := if tr.ran && inputs[0].TimerFire? then 1 else 0;
      var byHand := if tr.ran && inputs[0].Rerun? then 1 else 0;
      Outcome(rest.final, rest.timerRuns + byTimer, rest.manualRuns + byHand)
  }

  /** Running two stretches back to back is running their concatenation. */
  lemma {:induction false} ExecuteAppend(s: State, a: seq<Input>, b: seq<Input>)
    requires Feasible(s, a)
    ensures Feasible(s, a + b) <==> Feasible(Execute(s, a).final, b)
    ensures Feasible(s, a + b) ==>
      var x := Execute(s, a);
      var y := Execute(x.final, b);
      Execute(s, a + b) == Outcome(y.final, x.timerRuns + y.timerRuns, x.manualRuns + y.manualRuns)
    decreases |a|
  {
    if a != [] {
      assert (a + b)[0] == a[0];
      assert (a + b)[1..] == a[1..] + b;
      ExecuteAppend(Step(s, a[0]).next, a[1..], b);
    } else {
      assert a + b == b;
    }
  }

  /** The inputs a burst of change timestamps delivers. */
  function Changes(ts: seq<int>): (inputs: seq<Input>)
    ensures |inputs| == |ts|
    ensures forall k :: 0 <= k < |ts| ==> inputs[k] == Change(ts[k])
  {
    if ts == [] then [] else [Change(ts[0])] + Changes(ts[1..])
  }

  /** A burst of changes runs nothing, keeps `lastRun`, leaves the last timestamp
      of the burst in `lastChange` and the timer armed. */
  lemma {:induction false} BurstArmsTimer(s: State, ts: seq<int>)
    requires |ts| > 0
    ensures Feasible(s, Changes(ts))
    ensures Execute(s, Changes(ts)) == Outcome(State(s.lastRun, ts[|ts| - 1], true), 0, 0)
    decreases |ts|
  {
    var inputs := Changes(ts);
    assert inputs[0] == Change(ts[0]);
    assert inputs[1..] == Changes(ts[1..]);
    if |ts| > 1 {
      BurstArmsTimer(Step(s, inputs[0]).next, ts[1..]);
    }
  }

  /** Debounce: a burst of changes followed by one firing runs the command at
      most once, exactly when the burst's last timestamp is later than the last
      run, and leaves the timer disarmed, so no further firing can follow until
      the next change. */
  lemma BurstCollapses(s: State, ts: seq<int>, f: int)
    requires |ts| > 0
    ensures Feasible(s, Changes(ts) + [TimerFire(f)])
    ensures var o := Execute(s, Changes(ts) + [TimerFire(f)]);
      var newer := s.lastRun < ts[|ts| - 1];
      && o.final == State(if newer then f else s.lastRun, ts[|ts| - 1], false)
      && o.timerRuns == (if newer then 1 else 0)
      && o.manualRuns == 0
  {
    BurstArmsTimer(s, ts);
    var mid := Execute(s, Changes(ts)).final;
    assert Feasible(mid, [TimerFire(f)]) by {
      assert [TimerFire(f)][1..] == [];
    }
    ExecuteAppend(s, Changes(ts), [TimerFire(f)]);
    assert [TimerFire(f)][1..] == [];
  }

  /** The first firing after start-up runs the command. */
  lemma FirstFiringRuns(start: int, f: int)
    requires start > ZeroTime
    ensures Step(Init(start), TimerFire(f)).ran
    ensures Step(Init(start), TimerFire(f)).next == State(f, start, false)
  {
  }

  /** No change timestamp in the inputs is later than `T`. */
  ghost predicate NothingNewerThan(inputs: seq<Input>, T: int)
  {
    forall k :: 0 <= k < |inputs| && inputs[k].Change? ==> inputs[k].t <= T
  }

  /** Every run the inputs could start completes at or after `T`: the clock does
      not go back. */
  ghost predicate FinishesFrom(inputs: seq<Input>, T: int)
  {
    forall k :: 0 <= k < |inputs| && !inputs[k].Change? ==> inputs[k].finish >= T
  }

  /** No redundant rebuild: once the last change is covered by a run completed
      at or after `T`, the timer starts no further run unless a change later than
      `T` arrives. */
  lemma {:induction false} NoRedundantRebuild(s: State, inputs: seq<Input>, T: int)
    requires Feasible(s, inputs)
    requires s.lastChange <= T <= s.lastRun
    requires NothingNewerThan(inputs, T) && FinishesFrom(inputs, T)
    ensures Execute(s, inputs).timerRuns == 0
    ensures Execute(s, inputs).final.lastChange <= T <= Execute(s, inputs).final.lastRun
    decreases |inputs|
  {
    if inputs != [] {
      assert NothingNewerThan(inputs[1..], T) by {
        forall k | 0 <= k < |inputs[1..]| && inputs[1..][k].Change?
          ensures inputs[1..][k].t <= T
        {
          assert inputs[1..][k] == inputs[k + 1];
        }
      }
      assert FinishesFrom(inputs[1..], T) by {
        forall k | 0 <= k < |inputs[1..]| && !inputs[1..][k].Change?
          ensures inputs[1..][k].finish >= T
        {
          assert inputs[1..][k] == inputs[k + 1];
        }
      }
      NoRedundantRebuild(Step(s, inputs[0]).next, inputs[1..], T);
    }
  }

  /** How many change timestamps the inputs deliver. */
  function CountChanges(inputs: seq<Input>): (n: nat)
    ensures n <= |inputs|
  {
    if inputs == [] then 0
    else (if inputs[0].Change? then 1 else 0) + CountChanges(inputs[1..])
  }

  /** Each arming of the timer yields at most one timer-started run: the timer
      runs the command no more often than it was armed, initially or by a change. */
  lemma {:induction false} TimerRunsBounded(s: State, inputs: seq<Input>)
    requires Feasible(s, inputs)
    ensures Execute(s, inputs).timerRuns <= CountChanges(inputs) + (if s.armed then 1 else 0)
    decreases |inputs|
  {
    if inputs != [] {
      TimerRunsBounded(Step(s, inputs[0]).next, inputs[1..]);
    }
  }

  /** `lastChange` is overwritten, not raised to the maximum: a change still
      waiting for its rebuild is forgotten when an older timestamp arrives before
      the timer fires. */
  lemma PendingChangeLost(s: State, t: int, f: int)
    requires s.lastRun < s.lastChange && t <= s.lastRun
    ensures Feasible(s, [Change(t), TimerFire(f)])
    ensures Execute(s, [Change(t), TimerFire(f)]).timerRuns == 0
    ensures Execute(s, [Change(t), TimerFire(f)]).final.lastChange < s.lastChange
  {
    var inputs := [Change(t), TimerFire(f)];
    var mid := State(s.lastRun, t, true);
    assert Step(s, Change(t)).next == mid;
    assert inputs[1..] == [TimerFire(f)];
    assert [TimerFire(f)][1..] == [];
    assert Execute(mid, [TimerFire(f)]) == Outcome(mid.(armed := false), 0, 0);
  }

  /** A change made while a run is in progress is lost.  The run is synchronous,
      so the change's timestamp `t` reaches the loop only after the run, and it is
      earlier than that run's completion time `f`.  The next firing therefore
      finds `lastRun` not before `lastChange` and runs nothing, although the tree
      changed after the run had started. */
  lemma ChangeDuringRunLost(s: State, f: int, t: int, g: int)
    requires s.armed && s.lastRun < s.lastChange
    requires t < f
    ensures Feasible(s, [TimerFire(f), Change(t), TimerFire(g)])
    ensures Execute(s, [TimerFire(f), Change(t), TimerFire(g)]).timerRuns == 1
    ensures Execute(s, [TimerFire(f), Change(t), TimerFire(g)]).final == State(f, t, false)
  {
    var inputs := [TimerFire(f), Change(t), TimerFire(g)];
    var afterRun := State(f, s.lastChange, false);
    var afterChange := State(f, t, true);
    assert Step(s, TimerFire(f)) == Transition(afterRun, true);
    assert Step(afterRun, Change(t)) == Transition(afterChange, false);
    assert Step(afterChange, TimerFire(g)) == Transition(afterChange.(armed := false), false);
    assert inputs[1..] == [Change(t), TimerFire(g)];
    assert inputs[1..][1..] == [TimerFire(g)];
    assert [TimerFire(g)][1..] == [];
    assert Execute(afterChange, [TimerFire(g)]) == Outcome(afterChange.(armed := false), 0, 0);
    assert Execute(afterRun, [Change(t), TimerFire(g)]) == Outcome(afterChange.(armed := false), 0, 0);
  }
}
