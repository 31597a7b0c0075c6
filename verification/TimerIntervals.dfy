/** When timers fire, told by the times at which commands and rounds read the clock: never before their
    delay has passed, and in the first round after it (src/js_repl.rs:61-111, 424-440;
    src/js_repl_bootstrap.js:64-104). */
module TimerIntervals {
  import opened Options
  import opened TimerAgreement
  import opened TimerBatches
  import opened Timers

  // ---- The clock ----

  /** What the clock shows after a command, if it showed `from` before. */
  function Clock(command: Command, from: nat): nat {
    match command
    case Schedule(_, _, now) => now
    case Refresh(_, now) => now
    case Clear(_) => from
  }

  /** The clock is not turned back while the commands run. */
  predicate InOrder(commands: seq<Command>, from: nat) {
    commands == [] ||
    (from <= Clock(commands[0], from) && InOrder(commands[1..], Clock(commands[0], from)))
  }

  function ClockAfter(commands: seq<Command>, from: nat): nat {
    if commands == [] then from else ClockAfter(commands[1..], Clock(commands[0], from))
  }

  /** Nor while the callbacks of a batch run that are called. */
  ghost predicate BatchInOrder(w: World, due: seq<TimerId>, acts: TimerId -> Act, from: nat)
    decreases |due|
  {
    due == [] ||
    if due[0] !in w.timers then BatchInOrder(w, due[1..], acts, from)
    else
      var act := acts(due[0]);
      && InOrder(act.commands, from)
      && (!act.throws ==> BatchInOrder(Dispatched(w, due[0], act), due[1..], acts, ClockAfter(act.commands, from)))
  }

  ghost function BatchClock(w: World, due: seq<TimerId>, acts: TimerId -> Act, from: nat): nat
    decreases |due|
  {
    if due == [] then from
    else if due[0] !in w.timers then BatchClock(w, due[1..], acts, from)
    else
      var act := acts(due[0]);
      var after := ClockAfter(act.commands, from);
      if act.throws then after else BatchClock(Dispatched(w, due[0], act), due[1..], acts, after)
  }

  /** The world of a batch whose due timers were taken. */
  function AfterTaking(w: World, now: nat): World {
    w.(queue := Taken(w.queue, now))
  }

  ghost predicate StepInOrder(w: World, step: Step, from: nat) {
    match step
    case Script(commands) => InOrder(commands, from)
    case Batch(now, due, acts) => from <= now && BatchInOrder(AfterTaking(w, now), due, acts, now)
  }

  ghost function StepClock(w: World, step: Step, from: nat): nat {
    match step
    case Script(commands) => ClockAfter(commands, from)
    case Batch(now, due, acts) => BatchClock(AfterTaking(w, now), due, acts, now)
  }

  ghost predicate RunInOrder(worlds: seq<World>, steps: seq<Step>, from: nat)
    requires |worlds| == |steps| + 1
    decreases |steps|
  {
    steps != [] ==>
      && StepInOrder(worlds[0], steps[0], from)
      && RunInOrder(worlds[1..], steps[1..], StepClock(worlds[0], steps[0], from))
  }

  lemma {:induction false} ClockRises(commands: seq<Command>, from: nat)
    requires InOrder(commands, from)
    ensures from <= ClockAfter(commands, from)
    decreases |commands|
  {
    if commands != [] {
      ClockRises(commands[1..], Clock(commands[0], from));
    }
  }

  lemma {:induction false} BatchClockRises(w: World, due: seq<TimerId>, acts: TimerId -> Act, from: nat)
    requires BatchInOrder(w, due, acts, from)
    ensures from <= BatchClock(w, due, acts, from)
    decreases |due|
  {
    hide AllDone;
    if due != [] {
      if due[0] !in w.timers {
        BatchClockRises(w, due[1..], acts, from);
      } else {
        var act := acts(due[0]);
        ClockRises(act.commands, from);
        if !act.throws {
          BatchClockRises(Dispatched(w, due[0], act), due[1..], acts, ClockAfter(act.commands, from));
        }
      }
    }
  }

  // ---- When a timer was scheduled ----

  /** The time of the schedule and the delay it asked for, in nanoseconds. */
  datatype Birth = Birth(at: nat, delay: nat, repeating: bool)

  /** The command that gave out the handle. */
  ghost function Born(w: World, commands: seq<Command>, handle: nat): Option<Birth>
    decreases |commands|
  {
    if commands == [] then None
    else if commands[0].Schedule? && HasFreeId(w.queue) && w.handles == handle then
      Some(Birth(commands[0].now, NormalizedDelay(commands[0].delay) * MILLISECOND, commands[0].repeating))
    else Born(Done(w, commands[0]), commands[1..], handle)
  }

  ghost function BornInBatch(w: World, due: seq<TimerId>, acts: TimerId -> Act, handle: nat): Option<Birth>
    decreases |due|
  {
    if due == [] then None
    else if due[0] !in w.timers then BornInBatch(w, due[1..], acts, handle)
    else
      var act := acts(due[0]);
      var born := Born(Called(w, due[0]), act.commands, handle);
      if born.Some? || act.throws then born else BornInBatch(Dispatched(w, due[0], act), due[1..], acts, handle)
  }

  ghost function BornIn(w: World, step: Step, handle: nat): Option<Birth> {
    match step
    case Script(commands) => Born(w, commands, handle)
    case Batch(now, due, acts) => BornInBatch(AfterTaking(w, now), due, acts, handle)
  }

  ghost predicate FiredIn(w: World, step: Step, handle: nat) {
    FiredTimes(Stepped(w, step).0.log, handle) > FiredTimes(w.log, handle)
  }

  // ---- No timer fires too soon ----

  /** If the timer waits in the kernel's table, it waits with this delay, and until `earliest` at least. */
  ghost predicate Paced(w: World, handle: nat, delay: nat, earliest: nat) {
    && handle < w.handles
    && forall id <- w.timers :: w.timers[id].handle == handle && id in w.queue.entries ==>
         w.queue.entries[id].delay == delay && earliest <= w.queue.entries[id].due
  }

  lemma CommandKeepsPace(w: World, command: Command, handle: nat, delay: nat, earliest: nat, from: nat)
    requires Paced(w, handle, delay, earliest) && earliest <= from + delay && from <= Clock(command, from)
    ensures Paced(Done(w, command), handle, delay, earliest)
  {
    hide IsNextFree;
  }

  lemma {:induction false} CommandsKeepPace(
    w: World, commands: seq<Command>, handle: nat, delay: nat, earliest: nat, from: nat)
    requires Paced(w, handle, delay, earliest) && earliest <= from + delay && InOrder(commands, from)
    ensures Paced(AllDone(w, commands), handle, delay, earliest)
    decreases |commands|
  {
    hide Paced, Done;
    if commands != [] {
      CommandKeepsPace(w, commands[0], handle, delay, earliest, from);
      CommandsKeepPace(Done(w, commands[0]), commands[1..], handle, delay, earliest, Clock(commands[0], from));
    }
  }

  lemma ScheduleStartsPace(w: World, command: Command)
    requires Handled(w) && command.Schedule? && HasFreeId(w.queue)
    ensures var delay := NormalizedDelay(command.delay) * MILLISECOND;
            Paced(Done(w, command), w.handles, delay, command.now + delay)
  {
    hide IsNextFree;
  }

  lemma {:induction false} BirthStartsPace(w: World, commands: seq<Command>, handle: nat, from: nat)
    requires Handled(w) && InOrder(commands, from) && Born(w, commands, handle).Some?
    ensures var birth := Born(w, commands, handle).value;
            && from <= birth.at <= ClockAfter(commands, from) && w.handles <= handle && 0 < birth.delay
            && Paced(AllDone(w, commands), handle, birth.delay, birth.at + birth.delay)
    decreases |commands|
  {
    hide Handled, Paced, Done;
    var w1, clock := Done(w, commands[0]), Clock(commands[0], from);
    if commands[0].Schedule? && HasFreeId(w.queue) && w.handles == handle {
      var delay := NormalizedDelay(commands[0].delay) * MILLISECOND;
      ScheduleStartsPace(w, commands[0]);
      ClockRises(commands[1..], clock);
      CommandsKeepPace(w1, commands[1..], handle, delay, clock + delay, clock);
    } else {
      CommandIsSilent(w, commands[0], handle);
      HandlesRise(w, commands[0]);
      BirthStartsPace(w1, commands[1..], handle, clock);
    }
  }

  lemma HandlesRise(w: World, command: Command)
    ensures w.handles <= Done(w, command).handles
  {}

  lemma CallKeepsPace(w: World, id: TimerId, handle: nat, delay: nat, earliest: nat)
    requires Paced(w, handle, delay, earliest) && id in w.timers
    ensures Paced(Called(w, id), handle, delay, earliest)
  {}

  /** Whatever a batch calls, it makes no timer wait for less. */
  lemma {:induction false} BatchOnlyKeepsPace(
    w: World, due: seq<TimerId>, acts: TimerId -> Act, handle: nat, delay: nat, earliest: nat, from: nat)
    requires Paced(w, handle, delay, earliest) && earliest <= from + delay && BatchInOrder(w, due, acts, from)
    ensures Paced(BatchRun(w, due, acts).0, handle, delay, earliest)
    decreases |due|
  {
    hide Paced, AllDone;
    if due != [] {
      if due[0] in w.timers {
        var act := acts(due[0]);
        CallKeepsPace(w, due[0], handle, delay, earliest);
        CommandsKeepPace(Called(w, due[0]), act.commands, handle, delay, earliest, from);
        ClockRises(act.commands, from);
        if !act.throws {
          BatchOnlyKeepsPace(Dispatched(w, due[0], act), due[1..], acts, handle, delay, earliest,
                             ClockAfter(act.commands, from));
        }
      } else {
        BatchOnlyKeepsPace(w, due[1..], acts, handle, delay, earliest, from);
      }
    }
  }

  /** A timer that is called in the batch in which it was scheduled got an id that waited. */
  lemma {:induction false} BirthInBatchStartsPace(
    w: World, due: seq<TimerId>, acts: TimerId -> Act, handle: nat, from: nat)
    requires Handled(w) && BatchInOrder(w, due, acts, from) && BornInBatch(w, due, acts, handle).Some?
    ensures var birth := BornInBatch(w, due, acts, handle).value;
            && from <= birth.at <= BatchClock(w, due, acts, from) && w.handles <= handle && 0 < birth.delay
            && Paced(BatchRun(w, due, acts).0, handle, birth.delay, birth.at + birth.delay)
    decreases |due|
  {
    hide Handled, Paced, AllDone, Born, InOrder, ClockAfter, BatchRun, BatchInOrder, BatchClock, BornInBatch, Called;
    BatchUnrolled(w, due, acts, handle, from);
    if due[0] !in w.timers {
      BirthInBatchStartsPace(w, due[1..], acts, handle, from);
    } else {
      var act, called := acts(due[0]), Called(w, due[0]);
      var w1, clock := Dispatched(w, due[0], act), ClockAfter(act.commands, from);
      CallKeepsHandled(w, due[0]);
      ClockRises(act.commands, from);
      if Born(called, act.commands, handle).Some? {
        BirthStartsPace(called, act.commands, handle, from);
        var birth := Born(called, act.commands, handle).value;
        if !act.throws {
          BatchClockRises(w1, due[1..], acts, clock);
          BatchOnlyKeepsPace(w1, due[1..], acts, handle, birth.delay, birth.at + birth.delay, clock);
        }
      } else {
        CommandsKeepHandled(called, act.commands);
        BirthInBatchStartsPace(w1, due[1..], acts, handle, clock);
        CommandsOnlyRaiseHandles(called, act.commands);
      }
    }
  }

  /** The first call of a batch and the rest of it. */
  lemma BatchUnrolled(w: World, due: seq<TimerId>, acts: TimerId -> Act, handle: nat, from: nat)
    requires BatchInOrder(w, due, acts, from) && BornInBatch(w, due, acts, handle).Some?
    ensures due != []
    ensures due[0] !in w.timers ==>
              && BatchInOrder(w, due[1..], acts, from)
              && BornInBatch(w, due, acts, handle) == BornInBatch(w, due[1..], acts, handle)
              && BatchRun(w, due, acts) == BatchRun(w, due[1..], acts)
              && BatchClock(w, due, acts, from) == BatchClock(w, due[1..], acts, from)
    ensures due[0] in w.timers ==>
              var act, called := acts(due[0]), Called(w, due[0]);
              var w1, clock := Dispatched(w, due[0], act), ClockAfter(act.commands, from);
              var born := Born(called, act.commands, handle);
              && InOrder(act.commands, from) && w1 == AllDone(called, act.commands)
              && (act.throws ==>
                    && BornInBatch(w, due, acts, handle) == born
                    && BatchRun(w, due, acts).0 == w1 && BatchClock(w, due, acts, from) == clock)
              && (!act.throws ==>
                    && BatchInOrder(w1, due[1..], acts, clock)
                    && BornInBatch(w, due, acts, handle) == (if born.Some? then born
                                                             else BornInBatch(w1, due[1..], acts, handle))
                    && BatchRun(w, due, acts).0 == BatchRun(w1, due[1..], acts).0
                    && BatchClock(w, due, acts, from) == BatchClock(w1, due[1..], acts, clock))
  {
    hide AllDone, Born, InOrder, ClockAfter, Called;
  }

  lemma CallKeepsHandled(w: World, id: TimerId)
    requires Handled(w) && id in w.timers
    ensures Handled(Called(w, id)) && Called(w, id).handles == w.handles
  {
    CallFiresOnce(w, id, 0);
  }

  lemma {:induction false} CommandsOnlyRaiseHandles(w: World, commands: seq<Command>)
    ensures w.handles <= AllDone(w, commands).handles
    decreases |commands|
  {
    hide Done;
    if commands != [] {
      HandlesRise(w, commands[0]);
      CommandsOnlyRaiseHandles(Done(w, commands[0]), commands[1..]);
    }
  }

  /** While a batch taken at `now` runs: an old timer whose turn is still to come may fire now, and its
      next time is counted from now. */
  ghost predicate BatchPaced(w: World, due: seq<TimerId>, handle: nat, delay: nat, earliest: nat, now: nat) {
    && Paced(w, handle, delay, earliest)
    && forall id <- w.timers :: w.timers[id].handle == handle && id in due ==>
         earliest <= now && (id in w.queue.entries ==> now + delay <= w.queue.entries[id].due)
  }

  lemma CommandKeepsBatchPace(
    w: World, command: Command, due: seq<TimerId>, handle: nat, delay: nat, earliest: nat, now: nat, from: nat)
    requires BatchPaced(w, due, handle, delay, earliest, now) && earliest <= from + delay
    requires now <= from <= Clock(command, from)
    ensures BatchPaced(Done(w, command), due, handle, delay, earliest, now)
  {
    hide IsNextFree;
  }

  lemma {:induction false} CommandsKeepBatchPace(
    w: World, commands: seq<Command>, due: seq<TimerId>, handle: nat, delay: nat, earliest: nat, now: nat, from: nat)
    requires BatchPaced(w, due, handle, delay, earliest, now) && earliest <= from + delay
    requires now <= from && InOrder(commands, from)
    ensures BatchPaced(AllDone(w, commands), due, handle, delay, earliest, now)
    decreases |commands|
  {
    hide BatchPaced, Done;
    if commands != [] {
      CommandKeepsBatchPace(w, commands[0], due, handle, delay, earliest, now, from);
      CommandsKeepBatchPace(
        Done(w, commands[0]), commands[1..], due, handle, delay, earliest, now, Clock(commands[0], from));
    }
  }

  /** The call of the timer itself starts its next delay; the call of another leaves it as it was. */
  lemma CallKeepsBatchPace(w: World, due: seq<TimerId>, handle: nat, delay: nat, earliest: nat, now: nat)
    requires Handled(w) && due != [] && NoRepeats(due) && due[0] in w.timers
    requires BatchPaced(w, due, handle, delay, earliest, now)
    ensures var fires := w.timers[due[0]].handle == handle;
            && (fires ==> earliest <= now)
            && BatchPaced(Called(w, due[0]), due[1..], handle, delay, if fires then now + delay else earliest, now)
  {
    assert forall id :: id in due[1..] ==> id in due && id != due[0];
  }

  lemma SkipKeepsBatchPace(w: World, due: seq<TimerId>, handle: nat, delay: nat, earliest: nat, now: nat)
    requires due != [] && BatchPaced(w, due, handle, delay, earliest, now)
    ensures BatchPaced(w, due[1..], handle, delay, earliest, now) && BatchPaced(w, [], handle, delay, earliest, now)
  {
    assert forall id :: id in due[1..] ==> id in due;
  }

  /** An old timer fires once at most in a batch, when its time has come, and then waits for its delay. */
  lemma {:induction false} BatchKeepsPace(
    w: World, due: seq<TimerId>, acts: TimerId -> Act, handle: nat, delay: nat, earliest: nat, now: nat, from: nat)
    requires Handled(w) && NoRepeats(due) && BatchPaced(w, due, handle, delay, earliest, now)
    requires now <= from && earliest <= from + delay && 0 < delay && BatchInOrder(w, due, acts, from)
    ensures var w' := BatchRun(w, due, acts).0;
            var before, after := FiredTimes(w.log, handle), FiredTimes(w'.log, handle);
            && before <= after <= before + 1
            && (after == before ==> Paced(w', handle, delay, earliest))
            && (after > before ==> earliest <= now && Paced(w', handle, delay, now + delay))
    decreases |due|
  {
    hide Handled, BatchPaced, Paced, AllDone, FiredTimes, InOrder, ClockAfter;
    if due == [] {
      BatchPaceAtEnd(w, due, handle, delay, earliest, now);
    } else if due[0] !in w.timers {
      SkipKeepsBatchPace(w, due, handle, delay, earliest, now);
      BatchKeepsPace(w, due[1..], acts, handle, delay, earliest, now, from);
    } else {
      var act, called := acts(due[0]), Called(w, due[0]);
      var w1, clock := Dispatched(w, due[0], act), ClockAfter(act.commands, from);
      var next := if w.timers[due[0]].handle == handle then now + delay else earliest;
      CallFiresOnce(w, due[0], handle);
      CallKeepsBatchPace(w, due, handle, delay, earliest, now);
      CommandsAreSilent(called, act.commands, handle);
      CommandsKeepBatchPace(called, act.commands, due[1..], handle, delay, next, now, from);
      ClockRises(act.commands, from);
      if act.throws {
        BatchPaceAtEnd(w1, due[1..], handle, delay, next, now);
      } else {
        BatchKeepsPace(w1, due[1..], acts, handle, delay, next, now, clock);
      }
    }
  }

  lemma BatchPaceAtEnd(w: World, due: seq<TimerId>, handle: nat, delay: nat, earliest: nat, now: nat)
    requires BatchPaced(w, due, handle, delay, earliest, now)
    ensures Paced(w, handle, delay, earliest)
  {}

  lemma TakingStartsBatchPace(w: World, now: nat, due: seq<TimerId>, handle: nat, delay: nat, earliest: nat)
    requires Paced(w, handle, delay, earliest) && IsBatch(w.queue, now, due)
    ensures BatchPaced(AfterTaking(w, now), due, handle, delay, earliest, now) && NoRepeats(due)
  {}

  lemma StepKeepsPace(w: World, step: Step, handle: nat, delay: nat, earliest: nat, from: nat)
    requires Handled(w) && Enabled(w, step) && StepInOrder(w, step, from) && 0 < delay
    requires Paced(w, handle, delay, earliest) && earliest <= from + delay
    ensures var w' := Stepped(w, step).0;
            && Handled(w') && from <= StepClock(w, step, from)
            && FiredTimes(w'.log, handle) <= FiredTimes(w.log, handle) + 1
            && (!FiredIn(w, step, handle) ==> Paced(w', handle, delay, earliest))
            && (FiredIn(w, step, handle) ==>
                  && step.Batch? && earliest <= step.now <= StepClock(w, step, from)
                  && Paced(w', handle, delay, step.now + delay))
  {
    hide Handled, Paced, AllDone, BatchRun, FiredTimes, InOrder, ClockAfter, BatchInOrder, BatchClock, Taken, IsBatch;
    StepKeepsHandled(w, step);
    match step {
      case Script(commands) =>
        CommandsAreSilent(w, commands, handle);
        CommandsKeepPace(w, commands, handle, delay, earliest, from);
        ClockRises(commands, from);
      case Batch(now, due, acts) =>
        TakingStartsBatchPace(w, now, due, handle, delay, earliest);
        TakingKeepsHandled(w, now);
        BatchKeepsPace(AfterTaking(w, now), due, acts, handle, delay, earliest, now, now);
        BatchClockRises(AfterTaking(w, now), due, acts, now);
    }
  }

  lemma TakingKeepsHandled(w: World, now: nat)
    requires Handled(w)
    ensures Handled(AfterTaking(w, now))
  {}

  /** Rounds in which a timer fires come `delay` apart, the first not before `earliest`. */
  ghost predicate FiresApart(worlds: seq<World>, steps: seq<Step>, handle: nat, delay: nat, earliest: nat)
    requires |worlds| == |steps| + 1
  {
    && (forall k :: 0 <= k < |steps| && FiredIn(worlds[k], steps[k], handle) ==>
          && steps[k].Batch? && earliest <= steps[k].now
          && FiredTimes(worlds[k + 1].log, handle) == FiredTimes(worlds[k].log, handle) + 1)
    && (forall j, k ::
          && 0 <= j < k < |steps|
          && FiredIn(worlds[j], steps[j], handle) && FiredIn(worlds[k], steps[k], handle) ==>
          steps[j].now + delay <= steps[k].now)
  }

  lemma {:induction false} RunKeepsPace(
    worlds: seq<World>, steps: seq<Step>, handle: nat, delay: nat, earliest: nat, from: nat)
    requires IsRun(worlds, steps) && Handled(worlds[0]) && RunInOrder(worlds, steps, from) && 0 < delay
    requires Paced(worlds[0], handle, delay, earliest) && earliest <= from + delay
    ensures FiresApart(worlds, steps, handle, delay, earliest)
    decreases |steps|
  {
    hide Handled, Paced, Stepped, FiredTimes, Enabled, FiredIn, StepInOrder, StepClock, FiresApart;
    if steps == [] {
      NothingFires(worlds, steps, handle, delay, earliest);
    } else {
      assert Enabled(worlds[0], steps[0]) && worlds[1] == Stepped(worlds[0], steps[0]).0;
      StepKeepsPace(worlds[0], steps[0], handle, delay, earliest, from);
      var clock := StepClock(worlds[0], steps[0], from);
      var next := if FiredIn(worlds[0], steps[0], handle) then steps[0].now + delay else earliest;
      RunKeepsPace(worlds[1..], steps[1..], handle, delay, next, clock);
      FiresApartOnce(worlds, steps, handle, delay, earliest, next);
    }
  }

  lemma NothingFires(worlds: seq<World>, steps: seq<Step>, handle: nat, delay: nat, earliest: nat)
    requires |worlds| == |steps| + 1 && steps == []
    ensures FiresApart(worlds, steps, handle, delay, earliest)
  {}

  lemma FiresApartOnce(
    worlds: seq<World>, steps: seq<Step>, handle: nat, delay: nat, earliest: nat, next: nat)
    requires |worlds| == |steps| + 1 && steps != [] && worlds[1] == Stepped(worlds[0], steps[0]).0
    requires FiresApart(worlds[1..], steps[1..], handle, delay, next) && earliest <= next
    requires FiredIn(worlds[0], steps[0], handle) ==>
               && steps[0].Batch? && earliest <= steps[0].now && steps[0].now + delay <= next
               && FiredTimes(worlds[1].log, handle) <= FiredTimes(worlds[0].log, handle) + 1
    ensures FiresApart(worlds, steps, handle, delay, earliest)
  {
    hide Stepped, FiredTimes;
    forall k | 1 <= k < |steps| && FiredIn(worlds[k], steps[k], handle)
      ensures steps[k].Batch? && next <= steps[k].now
      ensures FiredTimes(worlds[k + 1].log, handle) == FiredTimes(worlds[k].log, handle) + 1
    {
      assert worlds[1..][k - 1] == worlds[k] && steps[1..][k - 1] == steps[k] && worlds[1..][k] == worlds[k + 1];
    }
    forall j, k | 1 <= j < k < |steps| && FiredIn(worlds[j], steps[j], handle) && FiredIn(worlds[k], steps[k], handle)
      ensures steps[j].now + delay <= steps[k].now
    {
      assert worlds[1..][j - 1] == worlds[j] && steps[1..][j - 1] == steps[j];
      assert worlds[1..][k - 1] == worlds[k] && steps[1..][k - 1] == steps[k];
    }
  }

  /** A timer scheduled in the first step of a run, by a script or by a callback. Later it fires in rounds
      that are its delay apart or more, in none more than once, and in none before its delay has passed
      since it was scheduled. Throws, refreshes and ids that come round do not matter; the one firing that
      can be early is in the very batch that scheduled it, and that round too is the delay before the
      next. */
  lemma FiringsAreApart(worlds: seq<World>, steps: seq<Step>, handle: nat, from: nat)
    requires IsRun(worlds, steps) && Handled(worlds[0]) && RunInOrder(worlds, steps, from) && steps != []
    requires BornIn(worlds[0], steps[0], handle).Some?
    ensures var birth := BornIn(worlds[0], steps[0], handle).value;
            && FiresApart(worlds[1..], steps[1..], handle, birth.delay, birth.at + birth.delay)
            && (FiredIn(worlds[0], steps[0], handle) ==>
                  && steps[0].Batch? && !FiresInTime(worlds[0], steps[0]) && steps[0].now <= birth.at
                  && forall k :: 1 <= k < |steps| && FiredIn(worlds[k], steps[k], handle) ==>
                       steps[k].Batch? && steps[0].now + birth.delay <= steps[k].now)
  {
    hide Handled, Paced, Stepped, FiredTimes, Enabled, FiredIn, FiresInTime, FiresApart, StepInOrder, StepClock;
    assert Enabled(worlds[0], steps[0]) && worlds[1] == Stepped(worlds[0], steps[0]).0;
    StepOfBirth(worlds[0], steps[0], handle, from);
    var birth := BornIn(worlds[0], steps[0], handle).value;
    RunKeepsPace(worlds[1..], steps[1..], handle, birth.delay, birth.at + birth.delay,
                 StepClock(worlds[0], steps[0], from));
    if FiredIn(worlds[0], steps[0], handle) {
      forall k | 1 <= k < |steps| && FiredIn(worlds[k], steps[k], handle)
        ensures steps[k].Batch? && birth.at + birth.delay <= steps[k].now
      {
        FirstIsNotEarly(worlds[1..], steps[1..], handle, birth.delay, birth.at + birth.delay, k - 1);
      }
    }
  }

  lemma FirstIsNotEarly(
    worlds: seq<World>, steps: seq<Step>, handle: nat, delay: nat, earliest: nat, k: nat)
    requires |worlds| == |steps| + 1 && FiresApart(worlds, steps, handle, delay, earliest)
    requires k < |steps| && FiredIn(worlds[k], steps[k], handle)
    ensures steps[k].Batch? && earliest <= steps[k].now
  {}

  lemma StepOfBirth(w: World, step: Step, handle: nat, from: nat)
    requires Handled(w) && Enabled(w, step) && StepInOrder(w, step, from) && BornIn(w, step, handle).Some?
    ensures var w', birth := Stepped(w, step).0, BornIn(w, step, handle).value;
            && Handled(w') && birth.at <= StepClock(w, step, from) && 0 < birth.delay
            && Paced(w', handle, birth.delay, birth.at + birth.delay)
            && (FiredIn(w, step, handle) ==> step.Batch? && !FiresInTime(w, step) && step.now <= birth.at)
  {
    hide Handled, Paced, AllDone, BatchRun, FiredTimes, InOrder, ClockAfter, BatchInOrder, BatchClock, Taken, IsBatch;
    hide Born, BornInBatch;
    StepKeepsHandled(w, step);
    match step {
      case Script(commands) =>
        BirthStartsPace(w, commands, handle, from);
        CommandsAreSilent(w, commands, handle);
      case Batch(now, due, acts) =>
        TakingKeepsHandled(w, now);
        BirthInBatchStartsPace(AfterTaking(w, now), due, acts, handle, now);
        if FiredIn(w, step, handle) {
          BatchOnlyLogs(AfterTaking(w, now), due, acts);
          NewFiringIsEarly(w, due, Stepped(w, step).0.log, handle);
        }
    }
  }

  /** A timer without an old handle was not due when the batch was taken. */
  lemma NewFiringIsEarly(w: World, due: seq<TimerId>, log: seq<Event>, handle: nat)
    requires Handled(w) && w.handles <= handle && w.log <= log
    requires FiredTimes(log, handle) > FiredTimes(w.log, handle)
    ensures !FiredOnlyDue(w, due, log)
  {
    var k := NewFiring(w.log, log, handle);
    assert log[k].Fired? && log[k].handle == handle;
  }

  lemma {:induction false} NewFiring(before: seq<Event>, log: seq<Event>, handle: nat) returns (k: nat)
    requires before <= log && FiredTimes(log, handle) > FiredTimes(before, handle)
    ensures |before| <= k < |log| && log[k] == Fired(handle)
    decreases |log|
  {
    if log == before {
      assert false;
    } else if log[|log| - 1] == Fired(handle) {
      k := |log| - 1;
    } else {
      k := NewFiring(before, log[..|log| - 1], handle);
    }
  }
}
