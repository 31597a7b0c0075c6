/** The round in which a timer fires: the first one at or after the time its delay has passed since it
    was scheduled, fired last or refreshed (src/js_repl.rs:61-111, 424-440;
    src/js_repl_bootstrap.js:64-104). */
module TimerDeadlines {
  import opened TimerAgreement
  import opened TimerBatches
  import opened TimerIntervals
  import opened Timers

  /** The script's table has the timer under the id. */
  predicate Holds(w: World, id: TimerId, timer: Timer) {
    id in w.timers && w.timers[id] == timer
  }

  /** Both tables have it, and it waits with this delay for this time. */
  predicate WaitsUntil(w: World, id: TimerId, timer: Timer, delay: nat, due: nat) {
    Holds(w, id, timer) && id in w.queue.entries && w.queue.entries[id] == Entry(due, delay, timer.repeating)
  }

  /** The commands refresh no timer under the id. */
  predicate RefreshesOthers(commands: seq<Command>, id: TimerId) {
    forall command <- commands :: command.Refresh? ==> command.id != id
  }

  predicate StepRefreshesOthers(step: Step, id: TimerId) {
    match step
    case Script(commands) => RefreshesOthers(commands, id)
    case Batch(_, due, acts) => forall other <- due :: RefreshesOthers(acts(other).commands, id)
  }

  // ---- Commands ----

  lemma CommandKeepsWaiting(w: World, command: Command, id: TimerId, timer: Timer, delay: nat, due: nat)
    requires Handled(w) && WaitsUntil(w, id, timer, delay, due) && (command.Refresh? ==> command.id != id)
    ensures WaitsUntil(Done(w, command), id, timer, delay, due) || Gone(Done(w, command), timer.handle)
  {
    hide IsNextFree;
    if command.Schedule? && HasFreeId(w.queue) {
      NextFreeIsFree(w.queue);
    }
  }

  /** A timer goes on waiting unless it is cleared. */
  lemma {:induction false} CommandsKeepWaiting(
    w: World, commands: seq<Command>, id: TimerId, timer: Timer, delay: nat, due: nat)
    requires Handled(w) && WaitsUntil(w, id, timer, delay, due) && RefreshesOthers(commands, id)
    ensures WaitsUntil(AllDone(w, commands), id, timer, delay, due) || Gone(AllDone(w, commands), timer.handle)
    decreases |commands|
  {
    hide Handled, WaitsUntil, Gone, Done;
    if commands != [] {
      CommandKeepsWaiting(w, commands[0], id, timer, delay, due);
      CommandIsSilent(w, commands[0], timer.handle);
      if Gone(Done(w, commands[0]), timer.handle) {
        CommandsAreSilent(Done(w, commands[0]), commands[1..], timer.handle);
      } else {
        CommandsKeepWaiting(Done(w, commands[0]), commands[1..], id, timer, delay, due);
      }
    }
  }

  lemma CommandHoldsOrDrops(w: World, command: Command, id: TimerId, timer: Timer)
    requires Handled(w) && Holds(w, id, timer)
    ensures Holds(Done(w, command), id, timer) || Gone(Done(w, command), timer.handle)
  {
    hide IsNextFree;
  }

  /** A timer stays in its place unless it is cleared or replaced. */
  lemma {:induction false} CommandsHoldOrDrop(w: World, commands: seq<Command>, id: TimerId, timer: Timer)
    requires Handled(w) && Holds(w, id, timer)
    ensures Holds(AllDone(w, commands), id, timer) || Gone(AllDone(w, commands), timer.handle)
    decreases |commands|
  {
    hide Handled, Holds, Gone, Done;
    if commands != [] {
      CommandHoldsOrDrops(w, commands[0], id, timer);
      CommandIsSilent(w, commands[0], timer.handle);
      if Gone(Done(w, commands[0]), timer.handle) {
        CommandsAreSilent(Done(w, commands[0]), commands[1..], timer.handle);
      } else {
        CommandsHoldOrDrop(Done(w, commands[0]), commands[1..], id, timer);
      }
    }
  }

  // ---- A batch without the timer ----

  /** A timer whose turn does not come in a batch goes on waiting and does not fire, unless a callback
      clears it. */
  lemma {:induction false} BatchKeepsWaiting(
    w: World, due: seq<TimerId>, acts: TimerId -> Act, id: TimerId, timer: Timer, delay: nat, at: nat)
    requires Handled(w) && WaitsUntil(w, id, timer, delay, at) && id !in due
    requires forall other <- due :: RefreshesOthers(acts(other).commands, id)
    ensures var w' := BatchRun(w, due, acts).0;
            && KeepsSilent(w, w', timer.handle)
            && (WaitsUntil(w', id, timer, delay, at) || Gone(w', timer.handle))
    decreases |due|
  {
    hide Handled, WaitsUntil, Gone, AllDone, FiredTimes, RefreshesOthers;
    if due != [] {
      if due[0] !in w.timers {
        BatchKeepsWaiting(w, due[1..], acts, id, timer, delay, at);
      } else {
        var act, called := acts(due[0]), Called(w, due[0]);
        assert due[0] in due;
        OtherIsCalled(w, due[0], id, timer, delay, at);
        CommandsAreSilent(called, act.commands, timer.handle);
        CommandsKeepWaiting(called, act.commands, id, timer, delay, at);
        var w1 := Dispatched(w, due[0], act);
        if !act.throws {
          if Gone(w1, timer.handle) {
            GoneStaysGone(w1, due[1..], acts, timer.handle);
          } else {
            BatchKeepsWaiting(w1, due[1..], acts, id, timer, delay, at);
          }
        }
      }
    }
  }

  lemma OtherIsCalled(w: World, other: TimerId, id: TimerId, timer: Timer, delay: nat, at: nat)
    requires Handled(w) && WaitsUntil(w, id, timer, delay, at) && other in w.timers && other != id
    ensures Handled(Called(w, other)) && WaitsUntil(Called(w, other), id, timer, delay, at)
    ensures KeepsSilent(w, Called(w, other), timer.handle)
  {
    hide FiredTimes;
    CallFiresOnce(w, other, timer.handle);
  }

  lemma {:induction false} GoneStaysGone(w: World, due: seq<TimerId>, acts: TimerId -> Act, handle: nat)
    requires Handled(w) && Gone(w, handle)
    ensures Gone(BatchRun(w, due, acts).0, handle) && KeepsSilent(w, BatchRun(w, due, acts).0, handle)
    decreases |due|
  {
    hide Handled, Gone, AllDone, FiredTimes;
    if due != [] && due[0] in w.timers {
      GoneIsNotCalled(w, due[0], handle);
      CommandsAreSilent(Called(w, due[0]), acts(due[0]).commands, handle);
      GoneStaysGone(Dispatched(w, due[0], acts(due[0])), due[1..], acts, handle);
    } else if due != [] {
      GoneStaysGone(w, due[1..], acts, handle);
    }
  }

  lemma GoneIsNotCalled(w: World, id: TimerId, handle: nat)
    requires Handled(w) && Gone(w, handle) && id in w.timers
    ensures Handled(Called(w, id)) && Gone(Called(w, id), handle) && KeepsSilent(w, Called(w, id), handle)
  {
    hide FiredTimes;
    CallFiresOnce(w, id, handle);
  }

  // ---- A batch with the timer ----

  /** The turn of the timer comes: no callback that is called before throws, and when it comes nothing has
      cleared or replaced the timer. */
  ghost predicate TurnComes(w: World, due: seq<TimerId>, acts: TimerId -> Act, id: TimerId, timer: Timer)
    decreases |due|
  {
    && due != []
    && if due[0] == id then Holds(w, id, timer)
       else
         && !(due[0] in w.timers && acts(due[0]).throws)
         && TurnComes(Dispatched(w, due[0], acts(due[0])), due[1..], acts, id, timer)
  }

  lemma HeldOtherIsCalled(w: World, other: TimerId, id: TimerId, timer: Timer)
    requires Handled(w) && other in w.timers && other != id
    requires Holds(w, id, timer) || Gone(w, timer.handle)
    ensures var w' := Called(w, other);
            && Handled(w') && KeepsSilent(w, w', timer.handle)
            && (Holds(w', id, timer) || Gone(w', timer.handle))
  {
    hide FiredTimes;
    CallFiresOnce(w, other, timer.handle);
  }

  /** A timer of a batch fires once if its turn comes, and otherwise not at all. */
  lemma {:induction false} FiresIffTurnComes(
    w: World, due: seq<TimerId>, acts: TimerId -> Act, id: TimerId, timer: Timer)
    requires Handled(w) && NoRepeats(due) && id in due && (Holds(w, id, timer) || Gone(w, timer.handle))
    ensures FiredTimes(BatchRun(w, due, acts).0.log, timer.handle)
         == FiredTimes(w.log, timer.handle) + (if TurnComes(w, due, acts, id, timer) then 1 else 0)
    decreases |due|
  {
    hide Handled, Holds, Gone, AllDone, FiredTimes;
    if due[0] == id {
      OwnTurn(w, due, acts, id, timer);
    } else {
      assert forall k :: 1 <= k < |due| ==> due[1..][k - 1] == due[k];
      if due[0] in w.timers {
        var act, called := acts(due[0]), Called(w, due[0]);
        HeldOtherIsCalled(w, due[0], id, timer);
        CommandsAreSilent(called, act.commands, timer.handle);
        if Holds(called, id, timer) {
          CommandsHoldOrDrop(called, act.commands, id, timer);
        }
        if !act.throws {
          FiresIffTurnComes(Dispatched(w, due[0], act), due[1..], acts, id, timer);
        }
      } else {
        FiresIffTurnComes(w, due[1..], acts, id, timer);
      }
    }
  }

  /** After its own turn the timer is not called again in the batch. */
  lemma OwnTurn(w: World, due: seq<TimerId>, acts: TimerId -> Act, id: TimerId, timer: Timer)
    requires Handled(w) && NoRepeats(due) && due != [] && due[0] == id
    requires Holds(w, id, timer) || Gone(w, timer.handle)
    ensures FiredTimes(BatchRun(w, due, acts).0.log, timer.handle)
         == FiredTimes(w.log, timer.handle) + (if Holds(w, id, timer) then 1 else 0)
  {
    hide Handled, Gone, AllDone, FiredTimes;
    if Gone(w, timer.handle) {
      GoneIsNotHeld(w, id, timer);
      GoneStaysGone(w, due, acts, timer.handle);
    } else {
      var act, called := acts(id), Called(w, id);
      CallFiresOnce(w, id, timer.handle);
      CommandsAreSilent(called, act.commands, timer.handle);
      assert id !in due[1..];
      AfterOwnCall(w, id, timer);
      if Holds(called, id, timer) {
        CommandsHoldOrDrop(called, act.commands, id, timer);
      }
      if !act.throws {
        NotCalledAgain(Dispatched(w, id, act), due[1..], acts, id, timer);
      }
    }
  }

  lemma GoneIsNotHeld(w: World, id: TimerId, timer: Timer)
    requires Gone(w, timer.handle)
    ensures !Holds(w, id, timer)
  {}

  lemma AfterOwnCall(w: World, id: TimerId, timer: Timer)
    requires Handled(w) && Holds(w, id, timer)
    ensures Holds(Called(w, id), id, timer) || Gone(Called(w, id), timer.handle)
  {}

  lemma {:induction false} NotCalledAgain(
    w: World, due: seq<TimerId>, acts: TimerId -> Act, id: TimerId, timer: Timer)
    requires Handled(w) && id !in due && (Holds(w, id, timer) || Gone(w, timer.handle))
    ensures KeepsSilent(w, BatchRun(w, due, acts).0, timer.handle)
    decreases |due|
  {
    hide Handled, Holds, Gone, AllDone, FiredTimes;
    if due != [] {
      if due[0] in w.timers {
        var act, called := acts(due[0]), Called(w, due[0]);
        HeldOtherIsCalled(w, due[0], id, timer);
        CommandsAreSilent(called, act.commands, timer.handle);
        if Holds(called, id, timer) {
          CommandsHoldOrDrop(called, act.commands, id, timer);
        }
        if !act.throws {
          NotCalledAgain(Dispatched(w, due[0], act), due[1..], acts, id, timer);
        }
      } else {
        NotCalledAgain(w, due[1..], acts, id, timer);
      }
    }
  }

  /** A repeating timer of a batch waits anew, called or not, unless a callback clears it. */
  lemma {:induction false} RepeatingWaitsAnew(
    w: World, due: seq<TimerId>, acts: TimerId -> Act, id: TimerId, timer: Timer, delay: nat, at: nat)
    requires Handled(w) && timer.repeating && WaitsUntil(w, id, timer, delay, at)
    requires forall other <- due :: RefreshesOthers(acts(other).commands, id)
    ensures var w' := BatchRun(w, due, acts).0; WaitsUntil(w', id, timer, delay, at) || Gone(w', timer.handle)
    decreases |due|
  {
    hide Handled, WaitsUntil, Gone, AllDone, FiredTimes, RefreshesOthers;
    if due != [] {
      if due[0] !in w.timers {
        RepeatingWaitsAnew(w, due[1..], acts, id, timer, delay, at);
      } else {
        var act, called := acts(due[0]), Called(w, due[0]);
        assert due[0] in due;
        RepeatingIsCalled(w, due[0], id, timer, delay, at);
        CommandsAreSilent(called, act.commands, timer.handle);
        CommandsKeepWaiting(called, act.commands, id, timer, delay, at);
        var w1 := Dispatched(w, due[0], act);
        if !act.throws {
          if Gone(w1, timer.handle) {
            GoneStaysGone(w1, due[1..], acts, timer.handle);
          } else {
            RepeatingWaitsAnew(w1, due[1..], acts, id, timer, delay, at);
          }
        }
      }
    }
  }

  lemma RepeatingIsCalled(w: World, other: TimerId, id: TimerId, timer: Timer, delay: nat, at: nat)
    requires Handled(w) && timer.repeating && WaitsUntil(w, id, timer, delay, at) && other in w.timers
    ensures Handled(Called(w, other)) && WaitsUntil(Called(w, other), id, timer, delay, at)
  {
    CallFiresOnce(w, other, timer.handle);
  }

  // ---- Whole runs ----

  /** No round of the step comes at or after the time. */
  predicate ComesBefore(step: Step, due: nat) {
    step.Batch? ==> step.now < due
  }

  lemma EarlyStepKeepsWaiting(w: World, step: Step, id: TimerId, timer: Timer, delay: nat, due: nat)
    requires Handled(w) && Enabled(w, step) && WaitsUntil(w, id, timer, delay, due)
    requires ComesBefore(step, due) && StepRefreshesOthers(step, id)
    ensures var w' := Stepped(w, step).0;
            && Handled(w') && !FiredIn(w, step, timer.handle)
            && (WaitsUntil(w', id, timer, delay, due) || Gone(w', timer.handle))
  {
    hide Handled, Gone, AllDone, BatchRun, FiredTimes, RefreshesOthers;
    StepKeepsHandled(w, step);
    match step {
      case Script(commands) =>
        CommandsAreSilent(w, commands, timer.handle);
        CommandsKeepWaiting(w, commands, id, timer, delay, due);
      case Batch(now, batch, acts) =>
        TakingKeepsHandled(w, now);
        assert id !in batch;
        BatchKeepsWaiting(AfterTaking(w, now), batch, acts, id, timer, delay, due);
    }
  }

  lemma GoneStepKeepsGone(w: World, step: Step, handle: nat)
    requires Handled(w) && Enabled(w, step) && Gone(w, handle)
    ensures var w' := Stepped(w, step).0; Handled(w') && Gone(w', handle) && !FiredIn(w, step, handle)
  {
    hide AllDone, BatchRun, FiredTimes;
    StepKeepsHandled(w, step);
    match step {
      case Script(commands) => CommandsAreSilent(w, commands, handle);
      case Batch(now, batch, acts) =>
        TakingKeepsHandled(w, now);
        GoneStaysGone(AfterTaking(w, now), batch, acts, handle);
    }
  }

  /** Whether a round at or after the time fires the timer, and what a repeating one waits for then. */
  lemma DueStepFiresIff(w: World, step: Step, id: TimerId, timer: Timer, delay: nat, due: nat)
    requires Handled(w) && Enabled(w, step) && step.Batch? && due <= step.now
    requires WaitsUntil(w, id, timer, delay, due) || Gone(w, timer.handle)
    ensures FiredIn(w, step, timer.handle) <==> TurnComes(AfterTaking(w, step.now), step.due, step.acts, id, timer)
    ensures WaitsUntil(w, id, timer, delay, due) && timer.repeating && StepRefreshesOthers(step, id) ==>
              var w' := Stepped(w, step).0;
              WaitsUntil(w', id, timer, delay, step.now + delay) || Gone(w', timer.handle)
  {
    hide AllDone, BatchRun, FiredTimes, TurnComes, RefreshesOthers;
    var taken := AfterTaking(w, step.now);
    TakingKeepsHandled(w, step.now);
    if WaitsUntil(w, id, timer, delay, due) {
      assert id in step.due;
      BatchHasNoRepeats(w.queue, step.now, step.due);
      FiresIffTurnComes(taken, step.due, step.acts, id, timer);
      if timer.repeating && StepRefreshesOthers(step, id) {
        RepeatingWaitsAnew(taken, step.due, step.acts, id, timer, delay, step.now + delay);
      }
    } else {
      GoneStepKeepsGone(w, step, timer.handle);
      GoneNeverTurns(taken, step.due, step.acts, id, timer);
    }
  }

  lemma {:induction false} GoneNeverTurns(
    w: World, due: seq<TimerId>, acts: TimerId -> Act, id: TimerId, timer: Timer)
    requires Handled(w) && Gone(w, timer.handle)
    ensures !TurnComes(w, due, acts, id, timer)
    decreases |due|
  {
    hide Handled, AllDone;
    if due != [] && due[0] != id {
      if due[0] in w.timers {
        GoneIsNotCalled(w, due[0], timer.handle);
        CommandsAreSilent(Called(w, due[0]), acts(due[0]).commands, timer.handle);
      }
      GoneNeverTurns(Dispatched(w, due[0], acts(due[0])), due[1..], acts, id, timer);
    }
  }

  /** Steps before `due`, and then a round at or after it. */
  predicate FirstRoundAfter(steps: seq<Step>, id: TimerId, due: nat) {
    && steps != [] && steps[|steps| - 1].Batch? && due <= steps[|steps| - 1].now
    && forall k :: 0 <= k < |steps| - 1 ==> ComesBefore(steps[k], due) && StepRefreshesOthers(steps[k], id)
  }

  /** A timer that waits until `due` does not fire before, and fires in the first round at or after it
      exactly when its turn comes there. */
  lemma {:induction false} FiresInFirstRoundIff(
    worlds: seq<World>, steps: seq<Step>, id: TimerId, timer: Timer, delay: nat, due: nat)
    requires IsRun(worlds, steps) && Handled(worlds[0]) && FirstRoundAfter(steps, id, due)
    requires WaitsUntil(worlds[0], id, timer, delay, due) || Gone(worlds[0], timer.handle)
    ensures var n := |steps| - 1;
            var round := steps[n];
            && (forall k :: 0 <= k < n ==> !FiredIn(worlds[k], steps[k], timer.handle))
            && (FiredIn(worlds[n], round, timer.handle)
                <==> TurnComes(AfterTaking(worlds[n], round.now), round.due, round.acts, id, timer))
            && (timer.repeating && StepRefreshesOthers(round, id) ==>
                  || WaitsUntil(worlds[n + 1], id, timer, delay, round.now + delay)
                  || Gone(worlds[n + 1], timer.handle))
    decreases |steps|
  {
    hide Handled, WaitsUntil, Gone, Stepped, Enabled, FiredIn, TurnComes, ComesBefore, StepRefreshesOthers;
    assert Enabled(worlds[0], steps[0]) && worlds[1] == Stepped(worlds[0], steps[0]).0;
    if |steps| == 1 {
      DueStepFiresIff(worlds[0], steps[0], id, timer, delay, due);
      if Gone(worlds[0], timer.handle) {
        GoneStepKeepsGone(worlds[0], steps[0], timer.handle);
      }
    } else {
      if Gone(worlds[0], timer.handle) {
        GoneStepKeepsGone(worlds[0], steps[0], timer.handle);
      } else {
        EarlyStepKeepsWaiting(worlds[0], steps[0], id, timer, delay, due);
      }
      FiresInFirstRoundIff(worlds[1..], steps[1..], id, timer, delay, due);
      forall k | 1 <= k < |steps| - 1
        ensures !FiredIn(worlds[k], steps[k], timer.handle)
      {
        assert !FiredIn(worlds[1..][k - 1], steps[1..][k - 1], timer.handle);
      }
    }
  }

  lemma ScheduledWaits(w: World, delay: Number, repeating: bool, now: nat)
    requires Handled(w) && HasFreeId(w.queue)
    ensures var duration := NormalizedDelay(delay) * MILLISECOND;
            WaitsUntil(Scheduled(w, delay, repeating, now), NextFree(w.queue), Timer(w.handles, repeating),
                       duration, now + duration)
  {
    hide IsNextFree;
  }

  /** A timer that a script schedules at `now`: it does not fire before its delay has passed, and in the
      first round after that it fires exactly if its turn comes. */
  lemma ScheduledFiresInFirstRound(
    worlds: seq<World>, steps: seq<Step>, delay: Number, repeating: bool, now: nat)
    requires IsRun(worlds, steps) && Handled(worlds[0]) && HasFreeId(worlds[0].queue)
    requires steps != [] && steps[0] == Script([Schedule(delay, repeating, now)])
    requires var duration := NormalizedDelay(delay) * MILLISECOND;
             FirstRoundAfter(steps[1..], NextFree(worlds[0].queue), now + duration)
    ensures var n, handle := |steps| - 1, worlds[0].handles;
            var round := steps[n];
            && (forall k :: 0 <= k < n ==> !FiredIn(worlds[k], steps[k], handle))
            && (FiredIn(worlds[n], round, handle)
                <==> TurnComes(AfterTaking(worlds[n], round.now), round.due, round.acts,
                               NextFree(worlds[0].queue), Timer(handle, repeating)))
  {
    hide Handled, WaitsUntil, Gone, FiredIn, TurnComes, FirstRoundAfter;
    var w := worlds[0];
    OneCommand(w, Schedule(delay, repeating, now));
    assert worlds[1] == Stepped(w, steps[0]).0 == Scheduled(w, delay, repeating, now);
    ScheduledWaits(w, delay, repeating, now);
    StepKeepsHandled(w, steps[0]);
    ScriptIsSilent(w, steps[0], w.handles);
    var duration := NormalizedDelay(delay) * MILLISECOND;
    var id, timer := NextFree(w.queue), Timer(w.handles, repeating);
    FiresInFirstRoundIff(worlds[1..], steps[1..], id, timer, duration, now + duration);
    RoundIsLast(worlds, steps, id, now + duration);
    forall k | 1 <= k < |steps| - 1
      ensures !FiredIn(worlds[k], steps[k], w.handles)
    {
      assert !FiredIn(worlds[1..][k - 1], steps[1..][k - 1], w.handles);
    }
  }

  /** The round is the last step of the run behind its first. */
  lemma RoundIsLast(worlds: seq<World>, steps: seq<Step>, id: TimerId, due: nat)
    requires |worlds| == |steps| + 1 && steps != [] && FirstRoundAfter(steps[1..], id, due)
    ensures |steps| >= 2 && |steps[1..]| == |steps| - 1
    ensures steps[1..][|steps| - 2] == steps[|steps| - 1] && worlds[1..][|steps| - 2] == worlds[|steps| - 1]
  {}

  lemma OneCommand(w: World, command: Command)
    ensures AllDone(w, [command]) == Done(w, command)
  {
    assert AllDone(w, [command]) == AllDone(Done(w, command), [command][1..]);
  }

  lemma ScriptIsSilent(w: World, step: Step, handle: nat)
    requires Handled(w) && step.Script?
    ensures !FiredIn(w, step, handle)
  {
    CommandsAreSilent(w, step.commands, handle);
  }

  /** A repeating timer that fires in a round and is not refreshed there: while it is not cleared, it does
      not fire again before its delay has passed since the round, and in the first round after that it
      fires exactly if its turn comes. */
  lemma RepeatingFiresAgain(
    worlds: seq<World>, steps: seq<Step>, id: TimerId, timer: Timer, delay: nat, due: nat)
    requires IsRun(worlds, steps) && Handled(worlds[0]) && timer.repeating
    requires WaitsUntil(worlds[0], id, timer, delay, due)
    requires steps != [] && steps[0].Batch? && due <= steps[0].now && StepRefreshesOthers(steps[0], id)
    requires FirstRoundAfter(steps[1..], id, steps[0].now + delay)
    ensures var n := |steps| - 1;
            var round := steps[n];
            && (forall k :: 1 <= k < n ==> !FiredIn(worlds[k], steps[k], timer.handle))
            && (FiredIn(worlds[n], round, timer.handle)
                <==> TurnComes(AfterTaking(worlds[n], round.now), round.due, round.acts, id, timer))
  {
    hide Handled, WaitsUntil, Gone, FiredIn, TurnComes, FirstRoundAfter, Stepped, Enabled;
    assert Enabled(worlds[0], steps[0]) && worlds[1] == Stepped(worlds[0], steps[0]).0;
    DueStepFiresIff(worlds[0], steps[0], id, timer, delay, due);
    StepKeepsHandled(worlds[0], steps[0]);
    FiresInFirstRoundIff(worlds[1..], steps[1..], id, timer, delay, steps[0].now + delay);
    RoundIsLast(worlds, steps, id, steps[0].now + delay);
    forall k | 1 <= k < |steps| - 1
      ensures !FiredIn(worlds[k], steps[k], timer.handle)
    {
      assert !FiredIn(worlds[1..][k - 1], steps[1..][k - 1], timer.handle);
    }
  }

  // ---- Refreshing ----

  /** A timer that a script refreshes while the kernel's table has it: it does not fire before its delay
      has passed since then, and in the first round after that it fires exactly if its turn comes. */
  lemma RefreshPostpones(
    worlds: seq<World>, steps: seq<Step>, id: TimerId, timer: Timer, delay: nat, due: nat, now: nat)
    requires IsRun(worlds, steps) && Handled(worlds[0]) && WaitsUntil(worlds[0], id, timer, delay, due)
    requires steps != [] && steps[0] == Script([Refresh(id, now)])
    requires FirstRoundAfter(steps[1..], id, now + delay)
    ensures var n := |steps| - 1;
            var round := steps[n];
            && (forall k :: 0 <= k < n ==> !FiredIn(worlds[k], steps[k], timer.handle))
            && (FiredIn(worlds[n], round, timer.handle)
                <==> TurnComes(AfterTaking(worlds[n], round.now), round.due, round.acts, id, timer))
  {
    hide Handled, Gone, FiredIn, TurnComes, FirstRoundAfter;
    OneCommand(worlds[0], Refresh(id, now));
    assert worlds[1] == Stepped(worlds[0], steps[0]).0;
    StepKeepsHandled(worlds[0], steps[0]);
    ScriptIsSilent(worlds[0], steps[0], timer.handle);
    FiresInFirstRoundIff(worlds[1..], steps[1..], id, timer, delay, now + delay);
    RoundIsLast(worlds, steps, id, now + delay);
    forall k | 1 <= k < |steps| - 1
      ensures !FiredIn(worlds[k], steps[k], timer.handle)
    {
      assert !FiredIn(worlds[1..][k - 1], steps[1..][k - 1], timer.handle);
    }
  }
}
