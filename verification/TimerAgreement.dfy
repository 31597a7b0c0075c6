/** When the kernel's table and the script's table agree, and which timers fire
    (src/js_repl.rs:61-115, 424-440; src/js_repl_bootstrap.js:64-104). */
module TimerAgreement {
  import opened Timers

  // ---- The tables agree ----

  /** The tables hold the same ids, except for one-shot timers that were taken and wait to be
      called; a taken id that is still in the kernel's table repeats. */
  ghost predicate Agree(w: World, waiting: set<TimerId>) {
    && Waits(w.queue)
    && (forall id <- w.queue.entries :: id in w.timers && w.timers[id].repeating == w.queue.entries[id].repeating)
    && (forall id <- w.timers :: id !in w.queue.entries ==> id in waiting && !w.timers[id].repeating)
    && (forall id <- waiting :: id in w.queue.entries ==> w.queue.entries[id].repeating)
  }

  ghost predicate SameIds(w: World) {
    w.queue.entries.Keys == w.timers.Keys
  }

  function IdsOf(due: seq<TimerId>): set<TimerId> {
    set id <- due
  }

  lemma NoneWaiting(w: World)
    requires Agree(w, {})
    ensures SameIds(w)
  {}

  /** A command that schedules is not given an id that waits to be called. */
  ghost predicate AvoidsWaiting(w: World, command: Command, waiting: set<TimerId>) {
    command.Schedule? && HasFreeId(w.queue) ==> NextFree(w.queue) !in waiting
  }

  ghost predicate AllAvoidWaiting(w: World, commands: seq<Command>, waiting: set<TimerId>)
    decreases |commands|
  {
    commands != [] ==>
      AvoidsWaiting(w, commands[0], waiting) && AllAvoidWaiting(Done(w, commands[0]), commands[1..], waiting)
  }

  lemma CommandKeepsAgreement(w: World, command: Command, waiting: set<TimerId>)
    requires Agree(w, waiting) && AvoidsWaiting(w, command, waiting)
    ensures Agree(Done(w, command), waiting)
  {
    hide IsNextFree;
  }

  lemma {:induction false} CommandsKeepAgreement(w: World, commands: seq<Command>, waiting: set<TimerId>)
    requires Agree(w, waiting) && AllAvoidWaiting(w, commands, waiting)
    ensures Agree(AllDone(w, commands), waiting)
    decreases |commands|
  {
    hide Agree, Done, AvoidsWaiting;
    if commands != [] {
      CommandKeepsAgreement(w, commands[0], waiting);
      CommandsKeepAgreement(Done(w, commands[0]), commands[1..], waiting);
    }
  }

  /** Every callback of the batch avoids the ids that still wait. */
  ghost predicate BatchAvoidsWaiting(w: World, due: seq<TimerId>, acts: TimerId -> Act)
    decreases |due|
  {
    due != [] ==>
      && (due[0] in w.timers ==> AllAvoidWaiting(Called(w, due[0]), acts(due[0]).commands, IdsOf(due[1..])))
      && BatchAvoidsWaiting(Dispatched(w, due[0], acts(due[0])), due[1..], acts)
  }

  ghost predicate NoRepeats(due: seq<TimerId>) {
    forall i, j :: 0 <= i < j < |due| ==> due[i] != due[j]
  }

  lemma TakingKeepsAgreement(w: World, now: nat, due: seq<TimerId>)
    requires Agree(w, {}) && IsBatch(w.queue, now, due)
    ensures Agree(w.(queue := Taken(w.queue, now)), IdsOf(due)) && NoRepeats(due)
  {}

  lemma CallKeepsAgreement(w: World, due: seq<TimerId>)
    requires due != [] && NoRepeats(due) && Agree(w, IdsOf(due))
    ensures Agree(if due[0] in w.timers then Called(w, due[0]) else w, IdsOf(due[1..]))
  {
    assert forall id :: id in IdsOf(due) <==> id == due[0] || id in IdsOf(due[1..]);
  }

  /** A batch keeps the agreement: the ids that a throw leaves undone still wait. */
  lemma {:induction false} BatchKeepsAgreement(w: World, due: seq<TimerId>, acts: TimerId -> Act)
    requires NoRepeats(due) && Agree(w, IdsOf(due)) && BatchAvoidsWaiting(w, due, acts)
    ensures var (w', rest) := BatchRun(w, due, acts); Agree(w', IdsOf(rest))
    decreases |due|
  {
    hide Agree, AllAvoidWaiting, AllDone;
    if due != [] {
      CallKeepsAgreement(w, due);
      if due[0] in w.timers {
        CommandsKeepAgreement(Called(w, due[0]), acts(due[0]).commands, IdsOf(due[1..]));
      }
      BatchKeepsAgreement(Dispatched(w, due[0], acts(due[0])), due[1..], acts);
    }
  }

  // ---- Whole runs ----

  function Schedules(commands: seq<Command>): nat {
    if commands == [] then 0 else (if commands[0].Schedule? then 1 else 0) + Schedules(commands[1..])
  }

  function BatchSchedules(due: seq<TimerId>, acts: TimerId -> Act): nat {
    if due == [] then 0 else Schedules(acts(due[0]).commands) + BatchSchedules(due[1..], acts)
  }

  function StepSchedules(step: Step): nat {
    match step
    case Script(commands) => Schedules(commands)
    case Batch(_, due, acts) => BatchSchedules(due, acts)
  }

  /** The next id has not come round to ids in use, and will not for so many timers more. */
  ghost predicate Unwrapped(w: World, waiting: set<TimerId>, more: nat) {
    && w.queue.nextId + more <= LAST_ID
    && (forall id <- w.queue.entries :: id < w.queue.nextId)
    && (forall id <- waiting :: id < w.queue.nextId)
  }

  lemma CommandStaysUnwrapped(w: World, command: Command, waiting: set<TimerId>, more: nat)
    requires Unwrapped(w, waiting, (if command.Schedule? then 1 else 0) + more)
    ensures AvoidsWaiting(w, command, waiting) && Unwrapped(Done(w, command), waiting, more)
  {
    if command.Schedule? {
      assert IsNextFree(w.queue, w.queue.nextId);
    }
  }

  lemma {:induction false} CommandsStayUnwrapped(w: World, commands: seq<Command>, waiting: set<TimerId>, more: nat)
    requires Unwrapped(w, waiting, Schedules(commands) + more)
    ensures AllAvoidWaiting(w, commands, waiting) && Unwrapped(AllDone(w, commands), waiting, more)
    decreases |commands|
  {
    hide Unwrapped, Done, AvoidsWaiting;
    if commands != [] {
      CommandStaysUnwrapped(w, commands[0], waiting, Schedules(commands[1..]) + more);
      CommandsStayUnwrapped(Done(w, commands[0]), commands[1..], waiting, more);
    }
  }

  lemma {:induction false} BatchStaysUnwrapped(w: World, due: seq<TimerId>, acts: TimerId -> Act, more: nat)
    requires Unwrapped(w, IdsOf(due), BatchSchedules(due, acts) + more)
    ensures BatchAvoidsWaiting(w, due, acts) && Unwrapped(BatchRun(w, due, acts).0, {}, more)
    decreases |due|
  {
    hide AllAvoidWaiting, AllDone;
    if due != [] {
      assert forall id :: id in IdsOf(due[1..]) ==> id in IdsOf(due);
      var later := BatchSchedules(due[1..], acts) + more;
      var commands := acts(due[0]).commands;
      if due[0] in w.timers {
        assert Unwrapped(Called(w, due[0]), IdsOf(due[1..]), Schedules(commands) + later);
        CommandsStayUnwrapped(Called(w, due[0]), commands, IdsOf(due[1..]), later);
      }
      assert Unwrapped(Dispatched(w, due[0], acts(due[0])), IdsOf(due[1..]), later);
      BatchStaysUnwrapped(Dispatched(w, due[0], acts(due[0])), due[1..], acts, more);
    }
  }

  lemma TakingStaysUnwrapped(w: World, now: nat, due: seq<TimerId>, more: nat)
    requires Unwrapped(w, {}, more) && IsBatch(w.queue, now, due)
    ensures Unwrapped(w.(queue := Taken(w.queue, now)), IdsOf(due), more)
  {}

  ghost predicate Throws(step: Step) {
    step.Batch? && exists id :: id in step.due && step.acts(id).throws
  }

  const NO_TIMERS: World := World(Queue(1, map[]), map[], 0, [])

  ghost predicate IsRun(worlds: seq<World>, steps: seq<Step>) {
    && |worlds| == |steps| + 1
    && forall k :: 0 <= k < |steps| ==> Enabled(worlds[k], steps[k]) && worlds[k + 1] == Stepped(worlds[k], steps[k]).0
  }

  function AllSchedules(steps: seq<Step>): nat {
    if steps == [] then 0 else StepSchedules(steps[0]) + AllSchedules(steps[1..])
  }

  lemma NoTimersAgree(more: nat)
    requires more < LAST_ID
    ensures Agree(NO_TIMERS, {}) && Unwrapped(NO_TIMERS, {}, more) && Handled(NO_TIMERS)
  {}

  // ---- Which timers fire ----

  /** Handles are given out once, and only given-out handles are spoken of. */
  ghost predicate Handled(w: World) {
    && (forall id <- w.timers :: w.timers[id].handle < w.handles)
    && (forall a, b :: a in w.timers && b in w.timers && a != b ==> w.timers[a].handle != w.timers[b].handle)
    && (forall e <- w.log :: e.handle < w.handles)
  }

  /** How often a timer fired. */
  function FiredTimes(log: seq<Event>, handle: nat): nat {
    if log == [] then 0 else FiredTimes(log[..|log| - 1], handle) + (if log[|log| - 1] == Fired(handle) then 1 else 0)
  }

  /** A timer that is in no table any more. */
  ghost predicate Gone(w: World, handle: nat) {
    handle < w.handles && forall id <- w.timers :: w.timers[id].handle != handle
  }

  lemma FiredAfter(log: seq<Event>, e: Event, handle: nat)
    ensures FiredTimes(log + [e], handle) == FiredTimes(log, handle) + (if e == Fired(handle) then 1 else 0)
    ensures log + [] == log
  {
    assert (log + [e])[..|log|] == log;
  }

  /** What a step may do to one timer. */
  ghost predicate KeepsSilent(w: World, w': World, handle: nat) {
    FiredTimes(w'.log, handle) == FiredTimes(w.log, handle)
  }

  lemma CommandIsSilent(w: World, command: Command, handle: nat)
    requires Handled(w)
    ensures Handled(Done(w, command)) && KeepsSilent(w, Done(w, command), handle)
    ensures Gone(w, handle) ==> Gone(Done(w, command), handle)
  {
    hide IsNextFree, FiredTimes;
    match command
    case Schedule(_, _, _) =>
      if HasFreeId(w.queue) && NextFree(w.queue) in w.timers {
        FiredAfter(w.log, Dropped(w.timers[NextFree(w.queue)].handle), handle);
      }
      FiredAfter(w.log, Dropped(0), handle);
    case Clear(id) =>
      if id in w.timers {
        FiredAfter(w.log, Dropped(w.timers[id].handle), handle);
      }
      FiredAfter(w.log, Dropped(0), handle);
    case Refresh(_, _) =>
  }

  /** Commands call no timer, and bring none back. */
  lemma {:induction false} CommandsAreSilent(w: World, commands: seq<Command>, handle: nat)
    requires Handled(w)
    ensures Handled(AllDone(w, commands)) && KeepsSilent(w, AllDone(w, commands), handle)
    ensures Gone(w, handle) ==> Gone(AllDone(w, commands), handle)
    decreases |commands|
  {
    hide Handled, Done, Gone, FiredTimes;
    if commands != [] {
      CommandIsSilent(w, commands[0], handle);
      CommandsAreSilent(Done(w, commands[0]), commands[1..], handle);
    }
  }

  lemma CallFiresOnce(w: World, id: TimerId, handle: nat)
    requires Handled(w) && id in w.timers
    ensures var w' := Called(w, id);
            && Handled(w')
            && FiredTimes(w'.log, handle)
               == FiredTimes(w.log, handle) + (if w.timers[id].handle == handle then 1 else 0)
            && (Gone(w, handle) ==> Gone(w', handle))
            && (w.timers[id] == Timer(handle, false) ==> Gone(w', handle))
  {
    hide FiredTimes;
    FiredAfter(w.log, Fired(w.timers[id].handle), handle);
  }

  /** A timer that may fire once: it waits for its first call, or is gone after one at most. */
  ghost predicate OneShot(w: World, handle: nat) {
    || (Gone(w, handle) && FiredTimes(w.log, handle) <= 1)
    || (FiredTimes(w.log, handle) == 0 && exists id :: id in w.timers && w.timers[id] == Timer(handle, false))
  }

  lemma CommandKeepsOneShot(w: World, command: Command, handle: nat)
    requires Handled(w) && OneShot(w, handle)
    ensures OneShot(Done(w, command), handle)
  {
    hide IsNextFree, FiredTimes;
    CommandIsSilent(w, command, handle);
    if !Gone(w, handle) {
      var id :| id in w.timers && w.timers[id] == Timer(handle, false);
      var w' := Done(w, command);
      if id in w'.timers && w'.timers[id] == w.timers[id] {
      } else {
        assert Gone(w', handle);
      }
    }
  }

  lemma {:induction false} CommandsKeepOneShot(w: World, commands: seq<Command>, handle: nat)
    requires Handled(w) && OneShot(w, handle)
    ensures Handled(AllDone(w, commands)) && OneShot(AllDone(w, commands), handle)
    decreases |commands|
  {
    hide Handled, Done, OneShot;
    if commands != [] {
      CommandIsSilent(w, commands[0], handle);
      CommandKeepsOneShot(w, commands[0], handle);
      CommandsKeepOneShot(Done(w, commands[0]), commands[1..], handle);
    }
  }

  lemma CallKeepsOneShot(w: World, id: TimerId, handle: nat)
    requires Handled(w) && OneShot(w, handle) && id in w.timers
    ensures Handled(Called(w, id)) && OneShot(Called(w, id), handle)
  {
    hide FiredTimes;
    CallFiresOnce(w, id, handle);
  }

  lemma {:induction false} BatchKeepsOneShot(w: World, due: seq<TimerId>, acts: TimerId -> Act, handle: nat)
    requires Handled(w) && OneShot(w, handle)
    ensures Handled(BatchRun(w, due, acts).0) && OneShot(BatchRun(w, due, acts).0, handle)
    decreases |due|
  {
    hide Handled, OneShot, AllDone;
    if due != [] {
      if due[0] in w.timers {
        CallKeepsOneShot(w, due[0], handle);
        CommandsKeepOneShot(Called(w, due[0]), acts(due[0]).commands, handle);
      }
      BatchKeepsOneShot(Dispatched(w, due[0], acts(due[0])), due[1..], acts, handle);
    }
  }

  lemma StepKeepsOneShot(w: World, step: Step, handle: nat)
    requires Handled(w) && OneShot(w, handle)
    ensures Handled(Stepped(w, step).0) && OneShot(Stepped(w, step).0, handle)
  {
    hide FiredTimes, AllDone, BatchRun;
    match step
    case Script(commands) => CommandsKeepOneShot(w, commands, handle);
    case Batch(now, due, acts) => BatchKeepsOneShot(w.(queue := Taken(w.queue, now)), due, acts, handle);
  }

  /** A one-shot timer fires at most once, whatever happens: throws, wrapped ids and cleared tables
      included. */
  lemma {:induction false} OneShotFiresAtMostOnce(worlds: seq<World>, steps: seq<Step>, handle: nat)
    requires IsRun(worlds, steps) && Handled(worlds[0]) && OneShot(worlds[0], handle)
    ensures forall w <- worlds :: FiredTimes(w.log, handle) <= 1
    decreases |steps|
  {
    hide Enabled, Stepped, Handled;
    if steps != [] {
      assert worlds[1] == Stepped(worlds[0], steps[0]).0;
      StepKeepsOneShot(worlds[0], steps[0], handle);
      OneShotFiresAtMostOnce(worlds[1..], steps[1..], handle);
      assert worlds == [worlds[0]] + worlds[1..];
    } else {
      assert worlds == [worlds[0]];
    }
  }

  /** A timer starts as one that may fire once. */
  lemma ScheduledIsOneShot(w: World, delay: Number, now: nat)
    requires Handled(w) && HasFreeId(w.queue)
    ensures OneShot(Scheduled(w, delay, false, now), w.handles)
  {
    hide IsNextFree, FiredTimes;
    var w' := Scheduled(w, delay, false, now);
    CommandIsSilent(w, Schedule(delay, false, now), w.handles);
    NeverFired(w.log, w.handles);
    assert w'.timers[NextFree(w.queue)] == Timer(w.handles, false);
  }

  lemma {:induction false} NeverFired(log: seq<Event>, handle: nat)
    requires forall e <- log :: e.handle != handle
    ensures FiredTimes(log, handle) == 0
  {
    if log != [] {
      NeverFired(log[..|log| - 1], handle);
    }
  }

  // ---- Timers that will not fire ----

  /** A timer that only the script's table still knows: it was taken and its batch was abandoned. */
  ghost predicate Stranded(w: World, handle: nat, due: seq<TimerId>) {
    exists id :: id in w.timers && w.timers[id].handle == handle && id !in w.queue.entries && id !in due
  }

  /** A timer that was cleared, replaced, called for the last time or stranded. */
  ghost predicate Dead(w: World, handle: nat, due: seq<TimerId>) {
    Gone(w, handle) || Stranded(w, handle, due)
  }

  lemma CommandKeepsDead(w: World, command: Command, handle: nat, due: seq<TimerId>)
    requires Handled(w) && Dead(w, handle, due)
    ensures Dead(Done(w, command), handle, due)
  {
    hide IsNextFree, FiredTimes;
    CommandIsSilent(w, command, handle);
    if !Gone(w, handle) {
      var id :| id in w.timers && w.timers[id].handle == handle && id !in w.queue.entries && id !in due;
      var w' := Done(w, command);
      if !(id in w'.timers && w'.timers[id] == w.timers[id]) {
        assert Gone(w', handle);
      }
    }
  }

  lemma {:induction false} CommandsKeepDead(w: World, commands: seq<Command>, handle: nat, due: seq<TimerId>)
    requires Handled(w) && Dead(w, handle, due)
    ensures Dead(AllDone(w, commands), handle, due)
    decreases |commands|
  {
    hide Handled, Done, Dead;
    if commands != [] {
      CommandIsSilent(w, commands[0], handle);
      CommandKeepsDead(w, commands[0], handle, due);
      CommandsKeepDead(Done(w, commands[0]), commands[1..], handle, due);
    }
  }

  lemma CallKeepsDead(w: World, due: seq<TimerId>, handle: nat)
    requires Handled(w) && due != [] && due[0] in w.timers && Dead(w, handle, due)
    ensures var w' := Called(w, due[0]);
            Handled(w') && Dead(w', handle, due[1..]) && KeepsSilent(w, w', handle)
  {
    hide FiredTimes;
    CallFiresOnce(w, due[0], handle);
    if !Gone(w, handle) {
      var id :| id in w.timers && w.timers[id].handle == handle && id !in w.queue.entries && id !in due;
      assert id != due[0];
    }
  }

  lemma {:induction false} BatchKeepsDead(w: World, due: seq<TimerId>, acts: TimerId -> Act, handle: nat)
    requires Handled(w) && Dead(w, handle, due)
    ensures var w' := BatchRun(w, due, acts).0;
            Handled(w') && Dead(w', handle, []) && KeepsSilent(w, w', handle)
    decreases |due|
  {
    hide Handled, AllDone, FiredTimes, Gone;
    if due != [] {
      if due[0] in w.timers {
        CallKeepsDead(w, due, handle);
        CommandsAreSilent(Called(w, due[0]), acts(due[0]).commands, handle);
        CommandsKeepDead(Called(w, due[0]), acts(due[0]).commands, handle, due[1..]);
      }
      BatchKeepsDead(Dispatched(w, due[0], acts(due[0])), due[1..], acts, handle);
    }
  }

  lemma StepKeepsDead(w: World, step: Step, handle: nat)
    requires Handled(w) && Enabled(w, step) && Dead(w, handle, [])
    ensures var w' := Stepped(w, step).0;
            Handled(w') && Dead(w', handle, []) && KeepsSilent(w, w', handle)
  {
    hide FiredTimes, AllDone, BatchRun;
    match step
    case Script(commands) =>
      CommandsAreSilent(w, commands, handle);
      CommandsKeepDead(w, commands, handle, []);
    case Batch(now, due, acts) =>
      BatchKeepsDead(w.(queue := Taken(w.queue, now)), due, acts, handle);
  }

  /** A dead timer never fires again: not one that was cleared, nor one that a throw stranded. */
  lemma {:induction false} DeadNeverFires(worlds: seq<World>, steps: seq<Step>, handle: nat)
    requires IsRun(worlds, steps) && Handled(worlds[0]) && Dead(worlds[0], handle, [])
    ensures forall w <- worlds :: FiredTimes(w.log, handle) == FiredTimes(worlds[0].log, handle)
    decreases |steps|
  {
    hide Enabled, Stepped, Handled, Dead;
    if steps != [] {
      assert worlds[1] == Stepped(worlds[0], steps[0]).0;
      StepKeepsDead(worlds[0], steps[0], handle);
      DeadNeverFires(worlds[1..], steps[1..], handle);
      assert worlds == [worlds[0]] + worlds[1..];
    } else {
      assert worlds == [worlds[0]];
    }
  }

  /** A timer that an earlier callback of the batch clears does not fire in the rest of the batch. */
  lemma ClearedStaysSilent(w: World, id: TimerId, later: seq<Command>, due: seq<TimerId>, acts: TimerId -> Act)
    requires Handled(w) && id in w.timers
    ensures var handle := w.timers[id].handle;
            KeepsSilent(w, BatchRun(AllDone(Cleared(w, id), later), due, acts).0, handle)
  {
    hide AllDone, BatchRun, FiredTimes;
    var handle := w.timers[id].handle;
    var cleared := Cleared(w, id);
    CommandIsSilent(w, Clear(id), handle);
    assert Gone(cleared, handle);
    CommandsAreSilent(cleared, later, handle);
    BatchKeepsDead(AllDone(cleared, later), due, acts, handle);
  }

  /** A throw strands the one-shot timers that it leaves undone: the script's table keeps them, and
      they never fire. */
  lemma ThrowStrandsOneShots(w: World, now: nat, due: seq<TimerId>, acts: TimerId -> Act, id: TimerId)
    requires Agree(w, {}) && IsBatch(w.queue, now, due)
    requires BatchAvoidsWaiting(w.(queue := Taken(w.queue, now)), due, acts)
    requires var (w', rest) := Stepped(w, Batch(now, due, acts));
             id in rest && id in w'.timers && !w'.timers[id].repeating
    ensures var w' := Stepped(w, Batch(now, due, acts)).0;
            !SameIds(w') && Dead(w', w'.timers[id].handle, [])
  {
    hide BatchRun, BatchAvoidsWaiting, Taken, IsBatch;
    TakingKeepsAgreement(w, now, due);
    BatchKeepsAgreement(w.(queue := Taken(w.queue, now)), due, acts);
  }

  // ---- Timers that do fire ----

  ghost predicate Settled(w: World, w': World, handle: nat) {
    && w.log <= w'.log
    && exists k :: |w.log| <= k < |w'.log| && (w'.log[k] == Fired(handle) || w'.log[k] == Dropped(handle))
  }

  lemma {:induction false} CommandsOnlyLog(w: World, commands: seq<Command>)
    ensures w.log <= AllDone(w, commands).log
    decreases |commands|
  {
    hide HasFreeId;
    if commands != [] {
      CommandsOnlyLog(Done(w, commands[0]), commands[1..]);
    }
  }

  lemma {:induction false} BatchOnlyLogs(w: World, due: seq<TimerId>, acts: TimerId -> Act)
    ensures w.log <= BatchRun(w, due, acts).0.log
    decreases |due|
  {
    hide AllDone;
    if due != [] {
      if due[0] in w.timers {
        CommandsOnlyLog(Called(w, due[0]), acts(due[0]).commands);
      }
      BatchOnlyLogs(Dispatched(w, due[0], acts(due[0])), due[1..], acts);
    }
  }

  /** Commands leave a timer in its place or say that it was dropped. */
  lemma {:induction false} CommandsKeepOrDrop(w: World, commands: seq<Command>, id: TimerId)
    requires id in w.timers
    ensures var w' := AllDone(w, commands);
            (id in w'.timers && w'.timers[id] == w.timers[id]) || Settled(w, w', w.timers[id].handle)
    decreases |commands|
  {
    hide HasFreeId, IsNextFree;
    if commands != [] {
      var w1 := Done(w, commands[0]);
      CommandsOnlyLog(w1, commands[1..]);
      if id in w1.timers && w1.timers[id] == w.timers[id] {
        CommandsKeepOrDrop(w1, commands[1..], id);
      } else {
        assert w1.log == w.log + [Dropped(w.timers[id].handle)];
        assert w1.log[|w.log|] == Dropped(w.timers[id].handle);
      }
    }
  }

  /** Every timer of a batch that runs to its end fires, unless a callback clears or replaces it. */
  lemma {:induction false} DueTimersFireOrDrop(w: World, due: seq<TimerId>, acts: TimerId -> Act, id: TimerId)
    requires id in due && id in w.timers
    requires forall other <- due :: !acts(other).throws
    ensures Settled(w, BatchRun(w, due, acts).0, w.timers[id].handle)
    decreases |due|
  {
    hide AllDone;
    var w1 := Dispatched(w, due[0], acts(due[0]));
    BatchOnlyLogs(w1, due[1..], acts);
    if due[0] == id {
      CommandsOnlyLog(Called(w, id), acts(id).commands);
      assert Called(w, id).log[|w.log|] == Fired(w.timers[id].handle);
    } else {
      if due[0] in w.timers {
        CommandsOnlyLog(Called(w, due[0]), acts(due[0]).commands);
        CommandsKeepOrDrop(Called(w, due[0]), acts(due[0]).commands, id);
      }
      if id in w1.timers && w1.timers[id] == w.timers[id] {
        DueTimersFireOrDrop(w1, due[1..], acts, id);
      }
    }
  }
}
