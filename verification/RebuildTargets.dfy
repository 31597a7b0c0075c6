/** What the development script leaves alone: the app, when only the daemon changes, and everything, once
    it quits (scripts/dev.ts:407-421, 443-515). */
module RebuildTargets {
  import opened Options
  import opened RebuildScheduler

  /** No app build is waiting, running or about to be launched. */
  predicate NoAppWork(s: State) {
    && s.debounced != Some(App) && s.queued != Some(App) && s.startup.StartupDone?
    && forall k :: 0 <= k < |s.loops| ==> s.loops[k].AtTop? || (s.loops[k].Builds? && s.loops[k].target.Daemon?)
  }

  /** The app is left alone: no build of it is started and none is launched. */
  predicate LeavesApp(s: State, s': State) {
    s'.attempted == s.attempted && s'.launches == s.launches && s'.current == s.current && s'.appRev == s.appRev
  }

  lemma TopLeavesApp(s: State, k: nat)
    requires k < |s.loops| && NoAppWork(s)
    ensures NoAppWork(LoopTop(s, k)) && LeavesApp(s, LoopTop(s, k))
  {}

  lemma DrainLeavesApp(s: State)
    requires NoAppWork(s)
    ensures NoAppWork(Drained(s)) && LeavesApp(s, Drained(s))
  {
    hide LoopTop;
    if !s.building && !s.stopping {
      TopLeavesApp(s.(building := true, loops := s.loops + [AtTop]), |s.loops|);
    }
  }

  lemma StepLeavesApp(s: State, e: Event)
    requires NoAppWork(s) && Enabled(s, e) && e != Change(App)
    ensures NoAppWork(Next(s, e)) && LeavesApp(s, Next(s, e))
  {
    hide LoopTop, Drained;
    match e
    case TimerFires =>
      var s1 := s.(armed := false);
      DrainLeavesApp(
        if s.debounced.None? then s1
        else s1.(queued := Some(MergedTarget(s.queued, s.debounced.value)), debounced := None));
    case LoopBuildEnds(k, ok) => TopLeavesApp(s, k);
    case _ =>
  }

  /** Changes of the daemon alone neither build nor relaunch the app. */
  lemma {:induction false} DaemonChangesLeaveApp(states: seq<State>, events: seq<Event>)
    requires IsRun(states, events) && NoAppWork(states[0]) && Change(App) !in events
    ensures NoAppWork(states[|events|]) && LeavesApp(states[0], states[|events|])
    decreases |events|
  {
    hide Next, Enabled, NoAppWork;
    if events != [] {
      assert Enabled(states[0], events[0]) && states[1] == Next(states[0], events[0]);
      StepLeavesApp(states[0], events[0]);
      DaemonChangesLeaveApp(states[1..], events[1..]);
      assert states[1..][|events| - 1] == states[|events|];
    }
  }

  /** A build is of the app exactly if an app change waits for it, and of what waits otherwise. */
  lemma BuildsWhatWaits(s: State, k: nat)
    requires k < |s.loops|
    ensures var s' := LoopTop(s, k);
            if s.stopping || s.queued.None? then
              !s'.building && |s'.loops| == |s.loops| - 1 && s'.queued == s.queued && s'.attempted == s.attempted
            else
              && s'.loops[k].Builds? && s'.loops[k].target == s.queued.value && s'.queued == None
              && s'.loops[k].appRev == s.appRev && s'.loops[k].daemonRev == s.daemonRev
  {}

  /** The script ends by itself exactly when its initial build fails. */
  lemma EndsIff(s: State, e: Event)
    requires Enabled(s, e)
    ensures Next(s, e).exited <==> e == StartupBuildEnds(false)
  {
    hide LoopTop;
    TopEndsNothing();
  }

  lemma TopEndsNothing()
    ensures forall s: State, k: nat :: k < |s.loops| ==> LoopTop(s, k).exited == s.exited
    ensures forall s: State, k: nat :: k < |s.loops| && s.stopping ==>
              LoopTop(s, k).attempted == s.attempted && LoopTop(s, k).daemonAttempted == s.daemonAttempted
    ensures forall s: State, k: nat :: k < |s.loops| ==>
              LoopTop(s, k).launches == s.launches && LoopTop(s, k).stopping == s.stopping
    ensures forall s: State, k: nat :: k < |s.loops| ==> LoopTop(s, k).armed == s.armed
  {}

  /** Once the script stops it starts no build, launches nothing and arms no timer, whatever still ends. */
  lemma {:induction false} NothingStartsAfterQuitting(states: seq<State>, events: seq<Event>)
    requires IsRun(states, events) && events != [] && events[0] == Quits && !states[0].stopping
    ensures var s, s' := states[0], states[|events|];
            && s'.stopping && !s'.armed && s'.launches == s.launches
            && s'.attempted == s.attempted && s'.daemonAttempted == s.daemonAttempted
            && s'.appRev == s.appRev && s'.daemonRev == s.daemonRev
  {
    hide Next, Enabled;
    assert Enabled(states[0], Quits) && states[1] == Next(states[0], Quits);
    QuittingStops(states[0]);
    StoppedStaysQuiet(states[1..], events[1..]);
    assert states[1..][|events| - 1] == states[|events|];
  }

  lemma QuittingStops(s: State)
    requires Enabled(s, Quits) && !s.stopping
    ensures Next(s, Quits) == s.(stopping := true, armed := false)
  {}

  lemma {:induction false} StoppedStaysQuiet(states: seq<State>, events: seq<Event>)
    requires IsRun(states, events) && states[0].stopping && !states[0].armed
    ensures var s, s' := states[0], states[|events|];
            && s'.stopping && !s'.armed && s'.launches == s.launches
            && s'.attempted == s.attempted && s'.daemonAttempted == s.daemonAttempted
            && s'.appRev == s.appRev && s'.daemonRev == s.daemonRev
    decreases |events|
  {
    hide Next, Enabled;
    if events != [] {
      assert Enabled(states[0], events[0]) && states[1] == Next(states[0], events[0]);
      StoppedStepIsQuiet(states[0], events[0]);
      StoppedStaysQuiet(states[1..], events[1..]);
      assert states[1..][|events| - 1] == states[|events|];
    }
  }

  lemma StoppedStepIsQuiet(s: State, e: Event)
    requires Enabled(s, e) && s.stopping && !s.armed
    ensures var s' := Next(s, e);
            && s'.stopping && !s'.armed && s'.launches == s.launches
            && s'.attempted == s.attempted && s'.daemonAttempted == s.daemonAttempted
            && s'.appRev == s.appRev && s'.daemonRev == s.daemonRev
  {
    hide LoopTop;
    TopEndsNothing();
    TopCountsNothing();
  }

  lemma TopCountsNothing()
    ensures forall s: State, k: nat :: k < |s.loops| ==>
              LoopTop(s, k).appRev == s.appRev && LoopTop(s, k).daemonRev == s.daemonRev
  {}
}
