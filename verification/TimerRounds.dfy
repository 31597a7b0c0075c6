/** What a round of timers leaves due, and what refreshing a timer does while its batch runs
    (src/js_repl.rs:88-111, 424-440; src/js_repl_bootstrap.js:80-96). */
module TimerRounds {
  import opened TimerAgreement
  import opened Timers

  // ---- Nothing is due again at once ----

  lemma CommandKeepsWaits(w: World, command: Command)
    requires Waits(w.queue)
    ensures Waits(Done(w, command).queue)
  {
    hide IsNextFree;
  }

  lemma {:induction false} CommandsKeepWaits(w: World, commands: seq<Command>)
    requires Waits(w.queue)
    ensures Waits(AllDone(w, commands).queue)
    decreases |commands|
  {
    hide Waits, Done;
    if commands != [] {
      CommandKeepsWaits(w, commands[0]);
      CommandsKeepWaits(Done(w, commands[0]), commands[1..]);
    }
  }

  lemma {:induction false} BatchKeepsWaits(w: World, due: seq<TimerId>, acts: TimerId -> Act)
    requires Waits(w.queue)
    ensures Waits(BatchRun(w, due, acts).0.queue)
    decreases |due|
  {
    hide Waits, AllDone;
    if due != [] {
      if due[0] in w.timers {
        CommandsKeepWaits(Called(w, due[0]), acts(due[0]).commands);
      }
      BatchKeepsWaits(Dispatched(w, due[0], acts(due[0])), due[1..], acts);
    }
  }

  lemma StepKeepsWaits(w: World, step: Step)
    requires Waits(w.queue)
    ensures Waits(Stepped(w, step).0.queue)
  {
    hide Waits, AllDone, BatchRun, Taken;
    match step
    case Script(commands) => CommandsKeepWaits(w, commands);
    case Batch(now, due, acts) =>
      NothingDueAfterTaking(w.queue, now);
      BatchKeepsWaits(w.(queue := Taken(w.queue, now)), due, acts);
  }

  /** In any run, throws and ids that come round included, nothing is due right after taking what is
      due: a repeating timer cannot fire twice at once. */
  lemma {:induction false} NothingDueAfterTakingInAnyRun(worlds: seq<World>, steps: seq<Step>)
    requires IsRun(worlds, steps) && Waits(worlds[0].queue)
    ensures forall w <- worlds :: Waits(w.queue) && forall now, id :: !IsDue(Taken(w.queue, now), now, id)
    decreases |steps|
  {
    hide Enabled, Stepped, Waits, Taken;
    forall now
      ensures forall id :: !IsDue(Taken(worlds[0].queue, now), now, id)
    {
      NothingDueAfterTaking(worlds[0].queue, now);
    }
    if steps == [] {
      assert worlds == [worlds[0]];
    } else {
      assert worlds[1] == Stepped(worlds[0], steps[0]).0;
      StepKeepsWaits(worlds[0], steps[0]);
      NothingDueAfterTakingInAnyRun(worlds[1..], steps[1..]);
      assert worlds == [worlds[0]] + worlds[1..];
    }
  }

  /** The clock that a command reads does not show an earlier time. */
  predicate IsAfter(command: Command, now: nat) {
    match command
    case Schedule(_, _, then') => now <= then'
    case Refresh(_, then') => now <= then'
    case Clear(_) => true
  }

  ghost predicate IsQuiet(q: Queue, now: nat) {
    Waits(q) && forall id <- q.entries :: now < q.entries[id].due
  }

  lemma CommandKeepsQuiet(w: World, command: Command, now: nat)
    requires IsQuiet(w.queue, now) && IsAfter(command, now)
    ensures IsQuiet(Done(w, command).queue, now)
  {
    hide IsNextFree;
  }

  lemma {:induction false} CommandsKeepQuiet(w: World, commands: seq<Command>, now: nat)
    requires IsQuiet(w.queue, now) && forall command <- commands :: IsAfter(command, now)
    ensures IsQuiet(AllDone(w, commands).queue, now)
    decreases |commands|
  {
    hide IsQuiet, Done, IsAfter;
    if commands != [] {
      CommandKeepsQuiet(w, commands[0], now);
      CommandsKeepQuiet(Done(w, commands[0]), commands[1..], now);
    }
  }

  lemma {:induction false} BatchKeepsQuiet(w: World, due: seq<TimerId>, acts: TimerId -> Act, now: nat)
    requires IsQuiet(w.queue, now) && forall id <- due, command <- acts(id).commands :: IsAfter(command, now)
    ensures IsQuiet(BatchRun(w, due, acts).0.queue, now)
    decreases |due|
  {
    hide IsQuiet, AllDone, IsAfter;
    if due != [] {
      if due[0] in w.timers {
        assert due[0] in due;
        CommandsKeepQuiet(Called(w, due[0]), acts(due[0]).commands, now);
      }
      BatchKeepsQuiet(Dispatched(w, due[0], acts(due[0])), due[1..], acts, now);
    }
  }

  /** After a batch whose callbacks do not turn back the clock nothing is due at the time of the batch,
      whatever they schedule and refresh: a second round at that time finds nothing. */
  lemma NothingDueAfterBatch(w: World, now: nat, due: seq<TimerId>, acts: TimerId -> Act)
    requires Waits(w.queue)
    requires forall id <- due, command <- acts(id).commands :: IsAfter(command, now)
    ensures forall id :: !IsDue(Stepped(w, Batch(now, due, acts)).0.queue, now, id)
  {
    hide BatchRun;
    NothingDueAfterTaking(w.queue, now);
    BatchKeepsQuiet(w.(queue := Taken(w.queue, now)), due, acts, now);
  }

  // ---- Refreshing while a batch runs ----

  /** The same but for the times at which the kernel's timers are due. */
  ghost predicate SameButTimes(w: World, v: World) {
    && w.timers == v.timers && w.handles == v.handles && w.log == v.log
    && w.queue.nextId == v.queue.nextId && w.queue.entries.Keys == v.queue.entries.Keys
    && forall id <- w.queue.entries ::
         && w.queue.entries[id].delay == v.queue.entries[id].delay
         && w.queue.entries[id].repeating == v.queue.entries[id].repeating
  }

  lemma SameNextFree(q: Queue, r: Queue)
    requires q.nextId == r.nextId && q.entries.Keys == r.entries.Keys
    ensures HasFreeId(q) == HasFreeId(r) && (HasFreeId(q) ==> NextFree(q) == NextFree(r))
  {
    assert forall id: TimerId :: id in q.entries <==> id in r.entries;
    if HasFreeId(q) {
      var id, id' := NextFree(q), NextFree(r);
      assert Ahead(q.nextId, id) == Ahead(q.nextId, id');
    }
  }

  lemma CommandIgnoresTimes(w: World, v: World, command: Command)
    requires SameButTimes(w, v)
    ensures SameButTimes(Done(w, command), Done(v, command))
    ensures command.Refresh? ==> SameButTimes(Done(w, command), v)
  {
    hide IsNextFree, HasFreeId, NextFree;
    SameNextFree(w.queue, v.queue);
  }

  function WithoutRefreshes(commands: seq<Command>): seq<Command> {
    if commands == [] then []
    else (if commands[0].Refresh? then [] else [commands[0]]) + WithoutRefreshes(commands[1..])
  }

  lemma {:induction false} CommandsIgnoreRefreshes(w: World, v: World, commands: seq<Command>)
    requires SameButTimes(w, v)
    ensures SameButTimes(AllDone(w, commands), AllDone(v, WithoutRefreshes(commands)))
    decreases |commands|
  {
    hide SameButTimes, Done;
    if commands != [] {
      CommandIgnoresTimes(w, v, commands[0]);
      if commands[0].Refresh? {
        assert WithoutRefreshes(commands) == WithoutRefreshes(commands[1..]);
        CommandsIgnoreRefreshes(Done(w, commands[0]), v, commands[1..]);
      } else {
        assert WithoutRefreshes(commands)[1..] == WithoutRefreshes(commands[1..]);
        CommandsIgnoreRefreshes(Done(w, commands[0]), Done(v, commands[0]), commands[1..]);
      }
    }
  }

  /** The same callbacks, refreshing nothing. */
  function Unrefreshing(acts: TimerId -> Act): TimerId -> Act {
    (id: TimerId) => Act(WithoutRefreshes(acts(id).commands), acts(id).throws)
  }

  lemma {:induction false} BatchIgnoresRefreshes(w: World, v: World, due: seq<TimerId>, acts: TimerId -> Act)
    requires SameButTimes(w, v)
    ensures SameButTimes(BatchRun(w, due, acts).0, BatchRun(v, due, Unrefreshing(acts)).0)
    ensures BatchRun(w, due, acts).1 == BatchRun(v, due, Unrefreshing(acts)).1
    decreases |due|
  {
    hide AllDone, WithoutRefreshes;
    if due != [] {
      if due[0] in w.timers {
        CommandsIgnoreRefreshes(Called(w, due[0]), Called(v, due[0]), acts(due[0]).commands);
      }
      BatchIgnoresRefreshes(
        Dispatched(w, due[0], acts(due[0])), Dispatched(v, due[0], Unrefreshing(acts)(due[0])), due[1..], acts);
    }
  }

  /** A callback that refreshes timers of its batch postpones none of them: the same timers fire, the
      same are dropped and the same are left as without refreshing; only times of timers that the
      kernel still has can differ. */
  lemma RefreshesPostponeNothing(w: World, now: nat, due: seq<TimerId>, acts: TimerId -> Act)
    ensures var with, without := Stepped(w, Batch(now, due, acts)), Stepped(w, Batch(now, due, Unrefreshing(acts)));
            SameButTimes(with.0, without.0) && with.1 == without.1
  {
    hide BatchRun, Taken, Unrefreshing;
    var taken := w.(queue := Taken(w.queue, now));
    BatchIgnoresRefreshes(taken, taken, due, acts);
  }
}
