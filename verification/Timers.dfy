/** The timer of timers.go: callback goroutines, `Mod`, `Del` and `DelSync` in any
    interleaving. `modifyingLock` is never held while another lock is taken, so what happens
    under it is one step; `runningLock` is modelled step by step. */
module Timers {
  import opened Wrappers

  type Thread = int

  datatype Pc =
    | Fired        // callback started, waits for runningLock
    | HasLock      // callback holds runningLock, has not looked at isPending yet
    | Running      // the expiration function runs
    | SyncWaits    // DelSync after its first Del, waits for runningLock
    | SyncHolds    // DelSync holds runningLock, second Del still to come
    | SyncLast     // DelSync after its second Del, still holds runningLock
    | Gone

  /** `armed` is the runtime timer; `mods` and `runs` count calls of Mod and starts of the
      expiration function. */
  datatype State = State(isPending: bool, armed: bool, runningLock: Option<Thread>, threads: map<Thread, Pc>,
                         mods: nat, runs: nat)

  datatype Event =
    | Fire(t: Thread) | Lock(t: Thread) | Check(t: Thread) | Finish(t: Thread)
    | Mod | Del
    | SyncBegin(t: Thread) | SyncLock(t: Thread) | SyncDel(t: Thread) | SyncUnlock(t: Thread)

  ghost function PcOf(s: State, t: Thread): Pc {
    if t in s.threads then s.threads[t] else Gone
  }

  ghost predicate Enabled(s: State, ev: Event) {
    match ev
    case Fire(t) => s.armed && t !in s.threads
    case Lock(t) => PcOf(s, t) == Fired && s.runningLock == None
    case Check(t) => PcOf(s, t) == HasLock
    case Finish(t) => PcOf(s, t) == Running
    case Mod => true
    case Del => true
    case SyncBegin(t) => t !in s.threads
    case SyncLock(t) => PcOf(s, t) == SyncWaits && s.runningLock == None
    case SyncDel(t) => PcOf(s, t) == SyncHolds
    case SyncUnlock(t) => PcOf(s, t) == SyncLast
  }

  ghost function To(s: State, t: Thread, pc: Pc): State {
    s.(threads := s.threads[t := pc])
  }

  ghost function Exec(s: State, ev: Event): State
    requires Enabled(s, ev)
  {
    match ev
    case Fire(t) => To(s, t, Fired).(armed := false)
    case Lock(t) => To(s, t, HasLock).(runningLock := Some(t))
    case Check(t) =>
      if s.isPending then To(s, t, Running).(isPending := false, runs := s.runs + 1)
      else To(s, t, Gone).(runningLock := None)
    case Finish(t) => To(s, t, Gone).(runningLock := None)
    case Mod => s.(isPending := true, armed := true, mods := s.mods + 1)
    case Del => s.(isPending := false, armed := false)
    case SyncBegin(t) => To(s, t, SyncWaits).(isPending := false, armed := false)
    case SyncLock(t) => To(s, t, SyncHolds).(runningLock := Some(t))
    case SyncDel(t) => To(s, t, SyncLast).(isPending := false, armed := false)
    case SyncUnlock(t) => To(s, t, Gone).(runningLock := None)
  }

  ghost predicate Run(s: State, evs: seq<Event>)
    decreases |evs|
  {
    evs == [] || (Enabled(s, evs[0]) && Run(Exec(s, evs[0]), evs[1..]))
  }

  ghost function After(s: State, evs: seq<Event>): State
    requires Run(s, evs)
    decreases |evs|
  {
    if evs == [] then s else After(Exec(s, evs[0]), evs[1..])
  }

  /** NewTimer: armed for an hour and stopped at once. */
  ghost function NewTimer(): State {
    State(false, false, None, map[], 0, 0)
  }

  // ------------------------------------------------- invariant

  ghost predicate Holds(pc: Pc) {
    pc in {HasLock, Running, SyncHolds, SyncLast}
  }

  /** Exactly the owner of runningLock is where the lock is held, and every run used up a Mod. */
  ghost predicate Orderly(s: State) {
    && (forall t :: Holds(PcOf(s, t)) <==> s.runningLock == Some(t))
    && s.runs + (if s.isPending then 1 else 0) <= s.mods
  }

  lemma StepIsOrderly(s: State, ev: Event)
    requires Orderly(s) && Enabled(s, ev)
    ensures Orderly(Exec(s, ev))
  {
    var s' := Exec(s, ev);
    forall t
      ensures Holds(PcOf(s', t)) <==> s'.runningLock == Some(t)
    {
      assert Holds(PcOf(s, t)) <==> s.runningLock == Some(t);
      match ev
      case Lock(u) => assert Holds(PcOf(s, u)) <==> s.runningLock == Some(u);
      case Check(u) => assert Holds(PcOf(s, u)) <==> s.runningLock == Some(u);
      case Finish(u) => assert Holds(PcOf(s, u)) <==> s.runningLock == Some(u);
      case SyncDel(u) => assert Holds(PcOf(s, u)) <==> s.runningLock == Some(u);
      case SyncUnlock(u) => assert Holds(PcOf(s, u)) <==> s.runningLock == Some(u);
      case _ =>
    }
  }

  lemma {:induction false} RunIsOrderly(s: State, evs: seq<Event>)
    requires Orderly(s) && Run(s, evs)
    ensures Orderly(After(s, evs))
    decreases |evs|
  {
    if evs != [] {
      StepIsOrderly(s, evs[0]);
      RunIsOrderly(Exec(s, evs[0]), evs[1..]);
    }
  }

  /** The expiration function never runs more often than Mod was called, and at most one
      thread runs it at a time. */
  lemma RunsAtMostMods(evs: seq<Event>)
    requires Run(NewTimer(), evs)
    ensures var s := After(NewTimer(), evs);
      s.runs <= s.mods && forall t, u :: PcOf(s, t) == Running && PcOf(s, u) == Running ==> t == u
  {
    RunIsOrderly(NewTimer(), evs);
    var s := After(NewTimer(), evs);
    forall t, u | PcOf(s, t) == Running && PcOf(s, u) == Running
      ensures t == u
    {
      assert Holds(PcOf(s, t)) && Holds(PcOf(s, u));
    }
  }

  // ------------------------------------------------- cancellation

  ghost predicate Cancelled(s: State) {
    !s.isPending && forall t :: PcOf(s, t) != Running
  }

  ghost predicate NoMod(evs: seq<Event>) {
    forall k :: 0 <= k < |evs| ==> evs[k] != Mod
  }

  lemma CancelledStep(s: State, ev: Event)
    requires Cancelled(s) && Enabled(s, ev) && ev != Mod
    ensures Cancelled(Exec(s, ev)) && Exec(s, ev).runs == s.runs
  {
    forall t
      ensures PcOf(Exec(s, ev), t) != Running
    {
      assert PcOf(s, t) != Running;
    }
  }

  lemma {:induction false} StaysCancelled(s: State, evs: seq<Event>)
    requires Cancelled(s) && Run(s, evs) && NoMod(evs)
    ensures Cancelled(After(s, evs)) && After(s, evs).runs == s.runs
    decreases |evs|
  {
    if evs != [] {
      CancelledStep(s, evs[0]);
      StaysCancelled(Exec(s, evs[0]), evs[1..]);
    }
  }

  /** From the moment DelSync does its second Del, and so in particular when it returns, the
      expiration function neither runs nor starts until a later Mod, whatever callbacks are
      still on their way. */
  lemma DelSyncCancels(before: seq<Event>, t: Thread, after: seq<Event>)
    requires Run(NewTimer(), before) && Enabled(After(NewTimer(), before), SyncDel(t))
    requires Run(Exec(After(NewTimer(), before), SyncDel(t)), after) && NoMod(after)
    ensures var s := Exec(After(NewTimer(), before), SyncDel(t));
      Cancelled(s) && Cancelled(After(s, after)) && After(s, after).runs == s.runs
  {
    RunIsOrderly(NewTimer(), before);
    var s0 := After(NewTimer(), before);
    var s := Exec(s0, SyncDel(t));
    forall u
      ensures PcOf(s, u) != Running
    {
      assert Holds(PcOf(s0, t)) && (Holds(PcOf(s0, u)) <==> s0.runningLock == Some(u));
    }
    StaysCancelled(s, after);
  }

  /** Nothing fires or starts, and whoever runs has been running all along. */
  ghost predicate OnlyOldRuns(s: State, s': State) {
    && !s'.isPending && !s'.armed && s'.runs == s.runs
    && forall t {:trigger PcOf(s', t)} :: PcOf(s', t) == Running ==> PcOf(s, t) == Running
  }

  lemma OnlyOldRunsStep(s: State, s': State, ev: Event)
    requires OnlyOldRuns(s, s') && Enabled(s', ev) && ev != Mod
    ensures OnlyOldRuns(s, Exec(s', ev))
  {
    forall t | PcOf(Exec(s', ev), t) == Running
      ensures PcOf(s, t) == Running
    {
      assert PcOf(s', t) == Running;
    }
  }

  lemma {:induction false} OnlyOldRunsOn(s: State, s': State, evs: seq<Event>)
    requires OnlyOldRuns(s, s') && Run(s', evs) && NoMod(evs)
    ensures OnlyOldRuns(s, After(s', evs))
    decreases |evs|
  {
    if evs != [] {
      OnlyOldRunsStep(s, s', evs[0]);
      OnlyOldRunsOn(s, Exec(s', evs[0]), evs[1..]);
    }
  }

  ghost predicate SomeoneRuns(s: State) {
    exists t :: PcOf(s, t) == Running
  }

  /** Some continuation of `s` without Mod reaches a state in which the function runs. */
  ghost predicate MayRun(s: State) {
    exists evs :: Run(s, evs) && NoMod(evs) && SomeoneRuns(After(s, evs))
  }

  /** What Del alone achieves, after any run: until the next Mod no run starts, and a thread
      that runs had been running when Del was called. Nothing is ever running afterwards if
      and only if nothing was running at that moment. */
  lemma DelAloneCancelsIff(before: seq<Event>)
    requires Run(NewTimer(), before)
    ensures var s0 := After(NewTimer(), before); var s := Exec(s0, Del);
      && (forall evs :: Run(s, evs) && NoMod(evs) ==> OnlyOldRuns(s0, After(s, evs)))
      && (MayRun(s) <==> SomeoneRuns(s0))
  {
    var s0 := After(NewTimer(), before);
    var s := Exec(s0, Del);
    forall evs | Run(s, evs) && NoMod(evs)
      ensures OnlyOldRuns(s0, After(s, evs))
    {
      OnlyOldRunsOn(s0, s, evs);
    }
    if t :| PcOf(s0, t) == Running {
      assert PcOf(s, t) == Running;
      assert Run(s, []) && NoMod([]) && SomeoneRuns(After(s, []));
    }
    if evs :| Run(s, evs) && NoMod(evs) && SomeoneRuns(After(s, evs)) {
      var t :| PcOf(After(s, evs), t) == Running;
      assert PcOf(s0, t) == Running;
    }
  }

  /** It does happen: a callback that had passed its check before Del still runs after it. */
  lemma DelAloneMayLeaveARun()
    ensures var evs := [Mod, Fire(0), Lock(0), Check(0)];
      && Run(NewTimer(), evs) && SomeoneRuns(After(NewTimer(), evs))
      && MayRun(Exec(After(NewTimer(), evs), Del))
  {
    var evs := [Mod, Fire(0), Lock(0), Check(0)];
    assert PcOf(After(NewTimer(), evs), 0) == Running;
    DelAloneCancelsIff(evs);
  }

  /** A Mod is not lost: once it is called a new callback can fire, and when the lock is free it
      runs the expiration function, after any run. */
  lemma ModLeadsToARun(before: seq<Event>, t: Thread)
    requires Run(NewTimer(), before)
    requires var s := After(NewTimer(), before); t !in s.threads && s.runningLock == None
    ensures var s := After(NewTimer(), before); var evs := [Mod, Fire(t), Lock(t), Check(t)];
      && Run(s, evs) && PcOf(After(s, evs), t) == Running && After(s, evs).runs == s.runs + 1
      && !After(s, evs).isPending && After(s, evs).mods == s.mods + 1
  {
    var s := After(NewTimer(), before);
    var s1 := Exec(s, Mod);
    var s2 := Exec(s1, Fire(t));
    var s3 := Exec(s2, Lock(t));
    First(s3, Check(t), []);
    First(s2, Lock(t), [Check(t)]);
    First(s1, Fire(t), [Lock(t), Check(t)]);
    First(s, Mod, [Fire(t), Lock(t), Check(t)]);
    assert [Check(t)] + [] == [Check(t)] && [Lock(t)] + [Check(t)] == [Lock(t), Check(t)];
    assert [Fire(t)] + [Lock(t), Check(t)] == [Fire(t), Lock(t), Check(t)];
    assert [Mod] + [Fire(t), Lock(t), Check(t)] == [Mod, Fire(t), Lock(t), Check(t)];
  }

  lemma First(s: State, ev: Event, rest: seq<Event>)
    requires Enabled(s, ev) && Run(Exec(s, ev), rest)
    ensures Run(s, [ev] + rest) && After(s, [ev] + rest) == After(Exec(s, ev), rest)
  {
    assert ([ev] + rest)[1..] == rest;
  }

  /** The first Del of DelSync already keeps anything from starting, before it has the lock. */
  lemma SyncBeginStopsStarts(s: State, t: Thread, evs: seq<Event>)
    requires Enabled(s, SyncBegin(t)) && Run(Exec(s, SyncBegin(t)), evs) && NoMod(evs)
    ensures OnlyOldRuns(s, After(Exec(s, SyncBegin(t)), evs))
  {
    OnlyOldRunsOn(s, Exec(s, SyncBegin(t)), evs);
  }

  ghost function Fires(evs: seq<Event>): nat {
    if evs == [] then 0 else (if evs[0].Fire? then 1 else 0) + Fires(evs[1..])
  }

  ghost function Mods(evs: seq<Event>): nat {
    if evs == [] then 0 else (if evs[0] == Mod then 1 else 0) + Mods(evs[1..])
  }

  /** Every callback uses up a Mod: no more callbacks fire than Mod was called. */
  lemma {:induction false} FiresAtMostMods(s: State, evs: seq<Event>)
    requires Run(s, evs)
    ensures Fires(evs) + (if After(s, evs).armed then 1 else 0) <= Mods(evs) + (if s.armed then 1 else 0)
    decreases |evs|
  {
    if evs != [] {
      FiresAtMostMods(Exec(s, evs[0]), evs[1..]);
    }
  }
}
