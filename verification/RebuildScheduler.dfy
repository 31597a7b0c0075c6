/** The rebuild scheduler of the development script (scripts/dev.ts:335-390, 407-421, 443-515) as
    steps between awaits: the startup block, drain loops, the debounce timer, file changes and
    quitting interleave only there. */
module RebuildScheduler {
  import opened Options

  datatype Target = Daemon | App

  function MergedTarget(current: Option<Target>, next: Target): (r: Target)
    ensures r == App <==> current == Some(App) || next == App
  {
    if current == Some(App) || next == App then App else Daemon
  }

  /** What the startup block waits for. */
  datatype Startup =
    | InitialBuild(appRev: nat)
    | StartupStops(appRev: nat)
    | StartupPrepares(appRev: nat)
    | StartupDone

  /** What a drain loop waits for; `AtTop` is between two awaits. */
  datatype Loop =
    | AtTop
    | Builds(target: Target, appRev: nat, daemonRev: nat)
    | StopsApp(appRev: nat)
    | Prepares(appRev: nat)

  /** The script's variables, what its functions wait for, and a record: the newest app and daemon
      revisions that a build was started at, whether the last finished app build succeeded, the
      revisions that a finished app build was found to be current at, and the revisions launched. */
  datatype State = State(
    stopping: bool, exited: bool, building: bool,
    appRev: nat, daemonRev: nat,
    debounced: Option<Target>, queued: Option<Target>, armed: bool,
    startup: Startup, loops: seq<Loop>,
    attempted: nat, daemonAttempted: nat, succeeded: bool, current: seq<nat>, launches: seq<nat>)

  const START: State :=
    State(false, false, true, 0, 0, None, None, false, InitialBuild(0), [], 0, 0, false, [], [])

  // ---- The functions of the script ----

  /** `scheduleBuild`. */
  function Scheduled(s: State, target: Target): State {
    if s.stopping then s
    else
      s.(daemonRev := s.daemonRev + 1,
         appRev := if target.App? then s.appRev + 1 else s.appRev,
         debounced := Some(MergedTarget(s.debounced, target)),
         armed := true)
  }

  /** The top of drain loop `k`: take the queued build or leave. */
  function LoopTop(s: State, k: nat): State
    requires k < |s.loops|
  {
    if s.queued.Some? && !s.stopping then
      var target := s.queued.value;
      s.(queued := None, loops := s.loops[k := Builds(target, s.appRev, s.daemonRev)],
         attempted := if target.App? then s.appRev else s.attempted, daemonAttempted := s.daemonRev)
    else
      s.(building := false, loops := s.loops[..k] + s.loops[k + 1..])
  }

  /** The start of `drainBuildQueue`, up to its first await. */
  function Drained(s: State): State {
    if s.building || s.stopping then s
    else LoopTop(s.(building := true, loops := s.loops + [AtTop]), |s.loops|)
  }

  function TimerFired(s: State): State {
    var s1 := s.(armed := false);
    Drained(if s.debounced.None? then s1
            else s1.(queued := Some(MergedTarget(s.queued, s.debounced.value)), debounced := None))
  }

  function LoopBuilt(s: State, k: nat, ok: bool): State
    requires k < |s.loops| && s.loops[k].Builds?
  {
    var build := s.loops[k];
    var s1 := if build.target.App? then s.(succeeded := ok) else s;
    if !ok || s.stopping || build.target.Daemon? || s.appRev != build.appRev then LoopTop(s1, k)
    else s1.(current := s.current + [s.appRev], loops := s.loops[k := StopsApp(build.appRev)])
  }

  function LoopStopped(s: State, k: nat): State
    requires k < |s.loops| && s.loops[k].StopsApp?
  {
    if s.stopping then LoopTop(s, k) else s.(loops := s.loops[k := Prepares(s.loops[k].appRev)])
  }

  function LoopPrepared(s: State, k: nat): State
    requires k < |s.loops| && s.loops[k].Prepares?
  {
    LoopTop(if s.stopping then s else s.(launches := s.launches + [s.loops[k].appRev]), k)
  }

  function StartupBuilt(s: State, ok: bool): State
    requires s.startup.InitialBuild?
  {
    var s1 := s.(building := false, succeeded := ok);
    if !ok then s1.(exited := true, armed := false)
    else if s.appRev == s.startup.appRev then
      s1.(current := s.current + [s.appRev], startup := StartupStops(s.appRev))
    else
      var s2 := s1.(startup := StartupDone);
      if s2.queued.Some? then Drained(s2) else s2
  }

  function StartupPrepared(s: State): State
    requires s.startup.StartupPrepares?
  {
    var s1 := s.(startup := StartupDone);
    if s.stopping then s1 else s1.(launches := s.launches + [s.startup.appRev])
  }

  /** `cleanup`, and the app quitting by itself. */
  function Quit(s: State): State {
    if s.stopping then s else s.(stopping := true, armed := false)
  }

  // ---- Steps and runs ----

  datatype Event =
    | Change(target: Target)
    | TimerFires
    | StartupBuildEnds(ok: bool)
    | StartupStopEnds
    | StartupPrepareEnds
    | LoopBuildEnds(k: nat, ok: bool)
    | LoopStopEnds(k: nat)
    | LoopPrepareEnds(k: nat)
    | Quits

  predicate Enabled(s: State, e: Event) {
    && !s.exited
    && match e
       case Change(_) => true
       case TimerFires => s.armed
       case StartupBuildEnds(_) => s.startup.InitialBuild?
       case StartupStopEnds => s.startup.StartupStops?
       case StartupPrepareEnds => s.startup.StartupPrepares?
       case LoopBuildEnds(k, _) => k < |s.loops| && s.loops[k].Builds?
       case LoopStopEnds(k) => k < |s.loops| && s.loops[k].StopsApp?
       case LoopPrepareEnds(k) => k < |s.loops| && s.loops[k].Prepares?
       case Quits => true
  }

  function Next(s: State, e: Event): State
    requires Enabled(s, e)
  {
    match e
    case Change(target) => Scheduled(s, target)
    case TimerFires => TimerFired(s)
    case StartupBuildEnds(ok) => StartupBuilt(s, ok)
    case StartupStopEnds => s.(startup := StartupPrepares(s.startup.appRev))
    case StartupPrepareEnds => StartupPrepared(s)
    case LoopBuildEnds(k, ok) => LoopBuilt(s, k, ok)
    case LoopStopEnds(k) => LoopStopped(s, k)
    case LoopPrepareEnds(k) => LoopPrepared(s, k)
    case Quits => Quit(s)
  }

  predicate IsRun(states: seq<State>, events: seq<Event>) {
    && |states| == |events| + 1
    && forall k :: 0 <= k < |events| ==> Enabled(states[k], events[k]) && states[k + 1] == Next(states[k], events[k])
  }

  // ---- What every step keeps ----

  /** The newest app change was tried, or waits for its timer, or waits for the loop that builds. */
  predicate NoAppChangeLost(s: State) {
    || s.stopping || s.exited
    || s.attempted == s.appRev
    || (s.debounced == Some(App) && s.armed)
    || (s.queued == Some(App) && s.building)
  }

  /** Who builds: the startup block, or at most one loop, and then `building` says so. */
  predicate OneBuilder(s: State) {
    && |s.loops| <= 1
    && (if s.startup.InitialBuild? then s.loops == [] && (!s.exited ==> s.building) else s.building == (|s.loops| == 1))
  }

  /** The timer is armed as long as something waits for it. */
  predicate TimerServes(s: State) {
    !s.stopping && !s.exited ==> s.armed == s.debounced.Some?
  }

  predicate Revisions(s: State) {
    && s.attempted <= s.appRev && s.daemonAttempted <= s.daemonRev
    && (s.startup.InitialBuild? ==> s.attempted == s.startup.appRev)
    && (s.startup.InitialBuild? && s.appRev == s.startup.appRev ==> s.debounced != Some(App) && s.queued != Some(App))
    && (s.startup.InitialBuild? && (s.debounced.Some? || s.queued.Some?) ==> s.daemonAttempted < s.daemonRev)
    && (s.loops != [] && s.loops[0].Builds? && s.loops[0].target.App? ==> s.attempted == s.loops[0].appRev)
    && (s.loops != [] && s.loops[0].StopsApp? ==> s.attempted == s.loops[0].appRev)
    && (s.loops != [] && s.loops[0].Prepares? ==> s.attempted == s.loops[0].appRev)
    && forall rev <- s.current :: rev <= s.attempted
  }

  /** Whether someone is about to launch a revision. */
  predicate WillLaunch(s: State, rev: nat) {
    || (s.startup.StartupStops? && s.startup.appRev == rev)
    || (s.startup.StartupPrepares? && s.startup.appRev == rev)
    || (s.loops != [] && (s.loops[0] == StopsApp(rev) || s.loops[0] == Prepares(rev)))
  }

  /** Only builds that were current when they were done are launched, and they all are. */
  ghost predicate LaunchesWhatIsCurrent(s: State) {
    && (forall rev <- s.launches :: rev in s.current)
    && (forall rev :: WillLaunch(s, rev) ==> rev in s.current)
    && (!s.stopping ==> forall rev <- s.current :: rev in s.launches || WillLaunch(s, rev))
  }

  /** Whether an app build is running. */
  predicate BuildsApp(s: State) {
    s.startup.InitialBuild? || (s.loops != [] && s.loops[0].Builds? && s.loops[0].target.App?)
  }

  /** A finished build of the newest app revision that succeeded was found current. */
  predicate SuccessIsCurrent(s: State) {
    !s.stopping && !BuildsApp(s) && s.succeeded && s.attempted == s.appRev ==> s.appRev in s.current
  }

  ghost predicate Inv(s: State) {
    && OneBuilder(s) && TimerServes(s) && Revisions(s) && NoAppChangeLost(s)
    && LaunchesWhatIsCurrent(s) && SuccessIsCurrent(s)
  }

  /** No loop is left between two awaits. */
  predicate AllWait(s: State) {
    forall k :: 0 <= k < |s.loops| ==> !s.loops[k].AtTop?
  }

  lemma StartHolds()
    ensures Inv(START) && AllWait(START)
  {}

  /** A loop that is done with an await goes to its top. */
  function AtItsTop(s: State): State {
    s.(loops := [AtTop])
  }

  lemma TopKeepsInv(s: State, k: nat)
    requires k < |s.loops| && Inv(AtItsTop(s)) && |s.loops| == 1
    ensures Inv(LoopTop(s, k)) && AllWait(LoopTop(s, k))
  {
    assert s.loops[..k] + s.loops[k + 1..] == [];
    forall x: Loop
      ensures s.loops[k := x] == [x]
    {}
  }

  lemma DrainKeepsInv(s: State)
    requires if s.building || s.stopping then Inv(s) && AllWait(s)
             else s.loops == [] && Inv(AtItsTop(s.(building := true)))
    ensures Inv(Drained(s)) && AllWait(Drained(s))
  {
    hide LoopTop, Inv;
    if !s.building && !s.stopping {
      var s1 := s.(building := true, loops := s.loops + [AtTop]);
      assert AtItsTop(s1) == AtItsTop(s.(building := true));
      TopKeepsInv(s1, 0);
    }
  }

  lemma ChangeKeepsInv(s: State, target: Target)
    requires Inv(s) && !s.exited
    ensures Inv(Scheduled(s, target)) && Scheduled(s, target).loops == s.loops
  {}

  lemma TimerKeepsInv(s: State)
    requires Inv(s) && AllWait(s) && !s.exited && s.armed
    ensures Inv(TimerFired(s)) && AllWait(TimerFired(s))
  {
    hide LoopTop, Drained;
    var s1 := s.(armed := false);
    var s2 := if s.debounced.None? then s1
              else s1.(queued := Some(MergedTarget(s.queued, s.debounced.value)), debounced := None);
    DrainKeepsInv(s2);
  }

  lemma StartupKeepsInv(s: State, e: Event)
    requires Inv(s) && AllWait(s) && Enabled(s, e)
    requires e.StartupBuildEnds? || e.StartupStopEnds? || e.StartupPrepareEnds?
    ensures Inv(Next(s, e)) && AllWait(Next(s, e))
  {
    hide LoopTop, Drained;
    if e.StartupBuildEnds? && e.ok && s.appRev != s.startup.appRev {
      DrainKeepsInv(s.(building := false, succeeded := true, startup := StartupDone));
    }
  }

  lemma LoopBuiltKeepsInv(s: State, k: nat, ok: bool)
    requires Inv(s) && AllWait(s) && k < |s.loops| && s.loops[k].Builds?
    ensures Inv(LoopBuilt(s, k, ok)) && AllWait(LoopBuilt(s, k, ok))
  {
    hide LoopTop;
    var build := s.loops[k];
    var s1 := if build.target.App? then s.(succeeded := ok) else s;
    if !ok || s.stopping || build.target.Daemon? || s.appRev != build.appRev {
      TopKeepsInv(s1, k);
    } else {
      assert s.loops[k := StopsApp(build.appRev)] == [StopsApp(build.appRev)];
    }
  }

  lemma LoopStoppedKeepsInv(s: State, k: nat)
    requires Inv(s) && AllWait(s) && k < |s.loops| && s.loops[k].StopsApp?
    ensures Inv(LoopStopped(s, k)) && AllWait(LoopStopped(s, k))
  {
    hide LoopTop;
    if s.stopping {
      TopKeepsInv(s, k);
    } else {
      assert s.loops[k := Prepares(s.loops[k].appRev)] == [Prepares(s.loops[k].appRev)];
    }
  }

  lemma LoopPreparedKeepsInv(s: State, k: nat)
    requires Inv(s) && AllWait(s) && k < |s.loops| && s.loops[k].Prepares?
    ensures Inv(LoopPrepared(s, k)) && AllWait(LoopPrepared(s, k))
  {
    hide LoopTop;
    TopKeepsInv(if s.stopping then s else s.(launches := s.launches + [s.loops[k].appRev]), k);
  }

  /** Every step keeps the invariant. */
  lemma StepKeepsInv(s: State, e: Event)
    requires Inv(s) && AllWait(s) && Enabled(s, e)
    ensures Inv(Next(s, e)) && AllWait(Next(s, e))
  {
    hide Inv, Scheduled, TimerFired, LoopTop;
    match e
    case Change(target) => ChangeKeepsInv(s, target);
    case TimerFires => TimerKeepsInv(s);
    case StartupBuildEnds(_) => StartupKeepsInv(s, e);
    case StartupStopEnds => StartupKeepsInv(s, e);
    case StartupPrepareEnds => StartupKeepsInv(s, e);
    case LoopBuildEnds(k, ok) => LoopBuiltKeepsInv(s, k, ok);
    case LoopStopEnds(k) => LoopStoppedKeepsInv(s, k);
    case LoopPrepareEnds(k) => LoopPreparedKeepsInv(s, k);
    case Quits => QuitKeepsInv(s);
  }

  lemma QuitKeepsInv(s: State)
    requires Inv(s)
    ensures Inv(Quit(s))
  {}

  /** What a run keeps, at every await. */
  lemma {:induction false} RunKeepsInv(states: seq<State>, events: seq<Event>)
    requires IsRun(states, events) && Inv(states[0]) && AllWait(states[0])
    ensures forall s <- states :: Inv(s) && AllWait(s)
    decreases |events|
  {
    hide Inv, AllWait, Enabled, Next;
    if events != [] {
      StepKeepsInv(states[0], events[0]);
      assert Enabled(states[0], events[0]) && states[1] == Next(states[0], events[0]);
      RunKeepsInv(states[1..], events[1..]);
      assert states == [states[0]] + states[1..];
    } else {
      assert states == [states[0]];
    }
  }

  // ---- What the invariant says ----

  /** In every run, until quitting: no app change is lost, and one loop at most drains the queue. */
  lemma NoAppChangeIsEverLost(states: seq<State>, events: seq<Event>)
    requires IsRun(states, events) && states[0] == START
    ensures forall s <- states :: NoAppChangeLost(s) && |s.loops| <= 1
  {
    hide NoAppChangeLost, IsRun;
    StartHolds();
    RunKeepsInv(states, events);
  }

  /** Nothing is going on any more. */
  predicate AtRest(s: State) {
    !s.stopping && !s.exited && s.startup.StartupDone? && s.loops == [] && !s.armed
  }

  /** At rest the newest app revision was built, and if that succeeded it was launched. */
  lemma RestMeansLaunched(s: State)
    requires Inv(s) && AtRest(s)
    ensures s.attempted == s.appRev && (s.succeeded ==> s.appRev in s.launches)
  {}

  /** A build is found current only when it ends well with the app revision it was started at, and
      only such revisions are launched, never after quitting. */
  lemma LaunchesFollowComparison(s: State, e: Event)
    requires Inv(s) && Enabled(s, e)
    ensures var s' := Next(s, e);
            && (s'.current != s.current ==>
                  && s'.current == s.current + [s.appRev]
                  && ((e == StartupBuildEnds(true) && s.startup == InitialBuild(s.appRev))
                      || (e == LoopBuildEnds(0, true) && s.loops[0].target.App? && s.loops[0].appRev == s.appRev)))
            && (s'.launches != s.launches ==>
                  !s.stopping && exists rev :: rev in s.current && s'.launches == s.launches + [rev])
            && (s.stopping ==> s'.stopping)
  {
    hide LoopTop;
    forall s1: State, k | k == 0 && |s1.loops| == 1
      ensures LoopTop(s1, k).current == s1.current && LoopTop(s1, k).launches == s1.launches
      ensures LoopTop(s1, k).stopping == s1.stopping
    {
      TopLeavesRecord(s1);
    }
  }

  lemma TopLeavesRecord(s: State)
    requires |s.loops| == 1
    ensures var s' := LoopTop(s, 0);
            s'.current == s.current && s'.launches == s.launches && s'.stopping == s.stopping
  {}

  predicate InOrder(revs: seq<nat>) {
    forall i, j :: 0 <= i < j < |revs| ==> revs[i] <= revs[j]
  }

  /** The revision that the startup block is about to launch. */
  function StartupRevision(s: State): Option<nat> {
    match s.startup
    case StartupStops(rev) => Some(rev)
    case StartupPrepares(rev) => Some(rev)
    case _ => None
  }

  /** Nothing is launched before the initial build ends; what loops build and launch while the startup
      block stops and prepares is newer than what it will launch. */
  predicate StartupIsOldest(s: State) {
    && (s.startup.InitialBuild? ==> s.launches == [])
    && match StartupRevision(s)
       case None => true
       case Some(rev) =>
         && rev <= s.appRev && (forall k :: 0 <= k < |s.launches| ==> s.launches[k] > rev)
         && (s.debounced == Some(App) || s.queued == Some(App) ==> s.appRev > rev)
         && (s.loops != [] ==>
               match s.loops[0]
               case AtTop => true
               case Builds(target, appRev, _) => target.App? ==> appRev > rev
               case StopsApp(appRev) => appRev > rev
               case Prepares(appRev) => appRev > rev)
  }

  lemma TopKeepsStartupOldest(s: State)
    requires |s.loops| == 1 && s.loops[0].AtTop? && StartupIsOldest(s)
    ensures StartupIsOldest(LoopTop(s, 0))
  {}

  lemma TopOfLoop(s: State, k: nat)
    requires |s.loops| == 1 && k == 0
    ensures LoopTop(s, k) == LoopTop(AtItsTop(s), 0)
  {
    assert forall x :: s.loops[k := x] == [x] && [AtTop][0 := x] == [x];
    assert s.loops[..k] + s.loops[k + 1..] == [] == [AtTop][..0] + [AtTop][1..];
  }

  lemma DrainKeepsStartupOldest(s: State)
    requires s.loops == [] || s.building
    requires StartupIsOldest(s)
    ensures StartupIsOldest(Drained(s))
  {
    hide LoopTop;
    if !s.building && !s.stopping {
      assert s.loops + [AtTop] == [AtTop];
      TopKeepsStartupOldest(s.(building := true, loops := [AtTop]));
    }
  }

  lemma LoopKeepsStartupOldest(s: State, e: Event)
    requires OneBuilder(s) && StartupIsOldest(s) && Enabled(s, e)
    requires e.LoopBuildEnds? || e.LoopStopEnds? || e.LoopPrepareEnds?
    ensures StartupIsOldest(Next(s, e))
  {
    hide LoopTop;
    assert forall x :: s.loops[e.k := x] == [x];
    var s1 := if e.LoopBuildEnds? && s.loops[e.k].target.App? then s.(succeeded := e.ok)
              else if e.LoopPrepareEnds? && !s.stopping then s.(launches := s.launches + [s.loops[e.k].appRev])
              else s;
    TopOfLoop(s1, e.k);
    TopKeepsStartupOldest(AtItsTop(s1));
  }

  lemma StepKeepsStartupOldest(s: State, e: Event)
    requires Inv(s) && StartupIsOldest(s) && Enabled(s, e)
    ensures StartupIsOldest(Next(s, e))
  {
    hide LoopTop, Drained, LaunchesWhatIsCurrent, SuccessIsCurrent, NoAppChangeLost;
    if e.TimerFires? {
      var s1 := s.(armed := false);
      DrainKeepsStartupOldest(
        if s.debounced.None? then s1
        else s1.(queued := Some(MergedTarget(s.queued, s.debounced.value)), debounced := None));
    } else if e.StartupBuildEnds? {
      DrainKeepsStartupOldest(s.(building := false, succeeded := e.ok, startup := StartupDone));
    } else if e.LoopBuildEnds? || e.LoopStopEnds? || e.LoopPrepareEnds? {
      LoopKeepsStartupOldest(s, e);
    }
  }

  /** Launches go from older to newer revisions, with one exception: the startup block launches its
      build although a loop launched one while it was stopping or preparing. Launches by then are all
      of that kind. */
  lemma LaunchesInOrderIff(s: State, e: Event)
    requires Inv(s) && StartupIsOldest(s) && Enabled(s, e) && InOrder(s.launches)
    ensures InOrder(Next(s, e).launches) <==> !(e.StartupPrepareEnds? && !s.stopping && s.launches != [])
    ensures StartupIsOldest(Next(s, e)) && StartupIsOldest(START)
  {
    hide LoopTop;
    StepKeepsStartupOldest(s, e);
    forall s1: State, k | k == 0 && |s1.loops| == 1
      ensures LoopTop(s1, k).launches == s1.launches
    {
      TopLeavesRecord(s1);
    }
    if s.loops != [] && s.loops[0].Prepares? {
      AppendInOrder(s.launches, s.loops[0].appRev);
    }
    if s.startup.StartupPrepares? {
      AppendInOrder(s.launches, s.startup.appRev);
      if s.launches != [] {
        assert s.launches[0] in s.launches && s.launches[0] > s.startup.appRev;
      }
    }
  }

  lemma AppendInOrder(revs: seq<nat>, rev: nat)
    requires InOrder(revs)
    ensures InOrder(revs + [rev]) <==> forall r <- revs :: r <= rev
  {
    var longer := revs + [rev];
    assert longer[|revs|] == rev;
    assert forall i :: 0 <= i < |revs| ==> longer[i] == revs[i] && revs[i] in revs;
  }

  // ---- A burst of changes ----

  function Changed(s: State, changes: seq<Target>): State
    decreases |changes|
  {
    if changes == [] then s else Changed(Scheduled(s, changes[0]), changes[1..])
  }

  function AppChanges(changes: seq<Target>): nat {
    if changes == [] then 0 else (if changes[0].App? then 1 else 0) + AppChanges(changes[1..])
  }

  /** A burst of changes, in any order, becomes one build: of the app exactly when one of the changes,
      or the build that was waiting, is of the app. Its timer is armed and every change counts. */
  lemma {:induction false} BurstBecomesOneBuild(s: State, changes: seq<Target>)
    requires !s.stopping && changes != []
    ensures var s' := Changed(s, changes);
            && s'.armed && s'.debounced == Some(if s.debounced == Some(App) || App in changes then App else Daemon)
            && s'.daemonRev == s.daemonRev + |changes| && s'.appRev == s.appRev + AppChanges(changes)
            && s'.queued == s.queued && s'.building == s.building && s'.loops == s.loops
    decreases |changes|
  {
    var s1, rest := Scheduled(s, changes[0]), changes[1..];
    assert changes == [changes[0]] + rest;
    assert App in changes <==> changes[0] == App || App in rest;
    if rest == [] {
      assert Changed(s, changes) == Changed(s1, []) == s1;
    } else {
      BurstBecomesOneBuild(s1, rest);
    }
  }

  // ---- Runs that show what is not kept ----

  function After(s: State, events: seq<Event>): Option<State>
    decreases |events|
  {
    if events == [] then Some(s)
    else if Enabled(s, events[0]) then After(Next(s, events[0]), events[1..]) else None
  }

  lemma {:induction false} AfterInTwo(s: State, first: seq<Event>, second: seq<Event>)
    ensures After(s, first + second) == match After(s, first) case None => None case Some(t) => After(t, second)
    decreases |first|
  {
    hide Enabled, Next;
    if first == [] {
      assert first + second == second;
    } else {
      assert (first + second)[1..] == first[1..] + second;
      if Enabled(s, first[0]) {
        AfterInTwo(Next(s, first[0]), first[1..], second);
      }
    }
  }

  const OVERTAKEN: seq<Event> := [StartupBuildEnds(true), Change(App), TimerFires, LoopBuildEnds(0, true)]
  const LAUNCHED_LAST: seq<Event> := [LoopStopEnds(0), LoopPrepareEnds(0), StartupStopEnds, StartupPrepareEnds]

  predicate IsOvertaken(s: State) {
    && !s.stopping && !s.exited && s.queued.None? && s.launches == []
    && s.startup == StartupStops(0) && s.loops == [StopsApp(1)]
  }

  lemma LoopOvertakes()
    ensures After(START, OVERTAKEN).Some? && IsOvertaken(After(START, OVERTAKEN).value)
  {}

  lemma StartupLaunchesLast(s: State)
    requires IsOvertaken(s)
    ensures After(s, LAUNCHED_LAST).Some? && After(s, LAUNCHED_LAST).value.launches == [1, 0]
  {}

  /** The startup block does not hold `building` while it stops and launches, so a loop can launch a
      newer build in between; the older one is launched on top. */
  lemma StartupCanLaunchLast()
    ensures var end := After(START, OVERTAKEN + LAUNCHED_LAST); end.Some? && end.value.launches == [1, 0]
  {
    hide After, IsOvertaken, OVERTAKEN, LAUNCHED_LAST;
    AfterInTwo(START, OVERTAKEN, LAUNCHED_LAST);
    LoopOvertakes();
    StartupLaunchesLast(After(START, OVERTAKEN).value);
  }

  /** The newest change of any kind was tried, or waits for its timer, or waits for the loop that
      builds. */
  predicate NoDaemonChangeLost(s: State) {
    || s.stopping || s.exited
    || s.daemonAttempted == s.daemonRev
    || (s.debounced.Some? && s.armed)
    || (s.queued.Some? && s.building)
  }

  /** A daemon change is lost exactly when the initial build ends well, finds no newer app change
      and leaves a queued build to nobody. */
  lemma DaemonChangeLostIff(s: State, e: Event)
    requires Inv(s) && Enabled(s, e) && NoDaemonChangeLost(s)
    ensures NoDaemonChangeLost(Next(s, e)) <==>
              !(e == StartupBuildEnds(true) && !s.stopping && s.queued.Some? && s.debounced.None?
                && s.appRev == s.startup.appRev)
  {
    hide LaunchesWhatIsCurrent, SuccessIsCurrent;
  }

  lemma DaemonChangeIsStranded()
    ensures var end := After(START, [Change(Daemon), TimerFires, StartupBuildEnds(true),
                                     StartupStopEnds, StartupPrepareEnds]);
            && end.Some? && AtRest(end.value) && end.value.queued == Some(Daemon)
            && end.value.daemonAttempted < end.value.daemonRev && !NoDaemonChangeLost(end.value)
  {}
}
