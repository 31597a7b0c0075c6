/** The script's variables and the functions that update them between awaits
    (scripts/dev.ts:407-421, 443-515). */
module DevScript {
  import opened Options
  import opened RebuildScheduler

  class Script {
    var stopping: bool
    var exited: bool
    var building: bool
    var appChangeRevision: nat
    var daemonChangeRevision: nat
    var debouncedBuild: Option<Target>
    var queuedBuild: Option<Target>
    var rebuildTimerArmed: bool

    /** What the startup block and the drain loops wait for. */
    var startup: Startup
    var loops: seq<Loop>

    ghost var attempted: nat
    ghost var daemonAttempted: nat
    ghost var succeeded: bool
    ghost var current: seq<nat>
    ghost var launches: seq<nat>

    ghost function View(): State
      reads this
    {
      State(stopping, exited, building, appChangeRevision, daemonChangeRevision, debouncedBuild, queuedBuild,
            rebuildTimerArmed, startup, loops, attempted, daemonAttempted, succeeded, current, launches)
    }

    /** Up to the await of the initial build. */
    constructor ()
      ensures View() == START
    {
      stopping, exited, building := false, false, true;
      appChangeRevision, daemonChangeRevision := 0, 0;
      debouncedBuild, queuedBuild, rebuildTimerArmed := None, None, false;
      startup, loops := InitialBuild(0), [];
      attempted, daemonAttempted, succeeded, current, launches := 0, 0, false, [], [];
    }

    method ScheduleBuild(target: Target)
      modifies this
      ensures View() == Scheduled(old(View()), target)
    {
      if stopping {
        return;
      }
      daemonChangeRevision := daemonChangeRevision + 1;
      if target == App {
        appChangeRevision := appChangeRevision + 1;
      }
      debouncedBuild := Some(MergedTarget(debouncedBuild, target));
      rebuildTimerArmed := true;
    }

    method RebuildTimerFires()
      modifies this
      ensures View() == TimerFired(old(View()))
    {
      rebuildTimerArmed := false;
      if debouncedBuild.Some? {
        queuedBuild := Some(MergedTarget(queuedBuild, debouncedBuild.value));
        debouncedBuild := None;
      }
      DrainBuildQueue();
    }

    method DrainBuildQueue()
      modifies this
      ensures View() == Drained(old(View()))
    {
      hide LoopTop;
      if building || stopping {
        return;
      }
      building := true;
      loops := loops + [AtTop];
      ContinueLoop(|loops| - 1);
    }

    /** The condition of the drain loop and its body up to the await of the build, or the end of
        `drainBuildQueue`. */
    method ContinueLoop(k: nat)
      requires k < |loops|
      modifies this
      ensures View() == LoopTop(old(View()), k)
    {
      if queuedBuild.Some? && !stopping {
        var target := queuedBuild.value;
        queuedBuild := None;
        loops := loops[k := Builds(target, appChangeRevision, daemonChangeRevision)];
        if target == App {
          attempted := appChangeRevision;
        }
        daemonAttempted := daemonChangeRevision;
      } else {
        building := false;
        loops := loops[..k] + loops[k + 1..];
      }
    }

    method AfterBuild(k: nat, ok: bool)
      requires k < |loops| && loops[k].Builds?
      modifies this
      ensures View() == LoopBuilt(old(View()), k, ok)
    {
      var build := loops[k];
      if build.target == App {
        succeeded := ok;
      }
      if !ok || stopping {
        ContinueLoop(k);
        return;
      }
      if build.target == Daemon {
        ContinueLoop(k);
        return;
      }
      if appChangeRevision != build.appRev {
        ContinueLoop(k);
        return;
      }
      current := current + [appChangeRevision];
      loops := loops[k := StopsApp(build.appRev)];
    }

    method AfterStopApp(k: nat)
      requires k < |loops| && loops[k].StopsApp?
      modifies this
      ensures View() == LoopStopped(old(View()), k)
    {
      if !stopping {
        loops := loops[k := Prepares(loops[k].appRev)];
        return;
      }
      ContinueLoop(k);
    }

    method AfterPrepare(k: nat)
      requires k < |loops| && loops[k].Prepares?
      modifies this
      ensures View() == LoopPrepared(old(View()), k)
    {
      if !stopping {
        launches := launches + [loops[k].appRev];
      }
      ContinueLoop(k);
    }

    method AfterInitialBuild(ok: bool)
      requires startup.InitialBuild?
      modifies this
      ensures View() == StartupBuilt(old(View()), ok)
    {
      building := false;
      succeeded := ok;
      if !ok {
        exited, rebuildTimerArmed := true, false;
        return;
      }
      if appChangeRevision == startup.appRev {
        current := current + [appChangeRevision];
        startup := StartupStops(appChangeRevision);
      } else {
        startup := StartupDone;
        if queuedBuild.Some? {
          DrainBuildQueue();
        }
      }
    }

    method AfterStartupPrepare()
      requires startup.StartupPrepares?
      modifies this
      ensures View() == StartupPrepared(old(View()))
    {
      if !stopping {
        launches := launches + [startup.appRev];
      }
      startup := StartupDone;
    }

    method Cleanup()
      modifies this
      ensures View() == Quit(old(View()))
    {
      if stopping {
        return;
      }
      stopping := true;
      rebuildTimerArmed := false;
    }
  }
}
