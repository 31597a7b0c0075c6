/** What one batch of timers does, exactly: which timers it fires and whether it leaves both tables
    with the same ids, whatever its callbacks schedule, clear and throw
    (src/js_repl.rs:61-111, 424-440; src/js_repl_bootstrap.js:71-96). */
module TimerBatches {
  import opened TimerAgreement
  import opened Timers

  // ---- What callbacks do to ids ----

  /** Kept while a batch runs, from the commands of its callbacks: the ids that were given out and not
      cleared since, with whether they repeat; the ids that were cleared; the ids whose new one-shot
      timer was called while the kernel keeps it; and whether any new timer was called. */
  datatype Tally = Tally(given: map<TimerId, bool>, cleared: set<TimerId>, lost: set<TimerId>, early: bool)

  const NOTHING: Tally := Tally(map[], {}, {}, false)

  ghost function TallyCommand(w: World, t: Tally, command: Command): Tally {
    match command
    case Schedule(_, repeating, _) =>
      if HasFreeId(w.queue) then t.(given := t.given[NextFree(w.queue) := repeating]) else t
    case Clear(id) => t.(given := t.given - {id}, cleared := t.cleared + {id}, lost := t.lost - {id})
    case Refresh(_, _) => t
  }

  ghost function TallyCommands(w: World, t: Tally, commands: seq<Command>): Tally
    decreases |commands|
  {
    if commands == [] then t else TallyCommands(Done(w, commands[0]), TallyCommand(w, t, commands[0]), commands[1..])
  }

  /** A timer is called: it is an old one, or one that got the id while the id waited. */
  function TallyCall(t: Tally, id: TimerId): Tally {
    if id !in t.given then t
    else if t.given[id] then t.(early := true)
    else t.(early := true, given := t.given - {id}, lost := t.lost + {id})
  }

  /** The tally of a batch, and the ids that a throw leaves undone. */
  ghost function TallyBatch(w: World, due: seq<TimerId>, acts: TimerId -> Act, t: Tally): (Tally, seq<TimerId>)
    decreases |due|
  {
    if due == [] then (t, [])
    else if due[0] !in w.timers then TallyBatch(w, due[1..], acts, t)
    else
      var act := acts(due[0]);
      var t' := TallyCommands(Called(w, due[0]), TallyCall(t, due[0]), act.commands);
      if act.throws then (t', due[1..]) else TallyBatch(Dispatched(w, due[0], act), due[1..], acts, t')
  }

  // ---- Which timers fire ----

  /** Every timer that fired since is one that had a due id in `w`. */
  ghost predicate FiredOnlyDue(w: World, due: seq<TimerId>, log: seq<Event>) {
    forall k :: |w.log| <= k < |log| && log[k].Fired? ==>
      exists id :: id in due && id in w.timers && w.timers[id].handle == log[k].handle
  }

  /** While a batch that began at `w0` runs: given-out ids hold new timers, other ids old ones. */
  ghost predicate FireInv(w0: World, due0: seq<TimerId>, w: World, t: Tally) {
    && w0.log <= w.log && w0.handles <= w.handles
    && (forall id <- t.given ::
          id in w.timers && w0.handles <= w.timers[id].handle && w.timers[id].repeating == t.given[id])
    && (forall id <- w.timers :: id !in t.given ==> id in w0.timers && w.timers[id] == w0.timers[id])
    && (t.early <==> !FiredOnlyDue(w0, due0, w.log))
  }

  lemma DropsFireNothing(w0: World, due0: seq<TimerId>, log: seq<Event>, handle: nat)
    requires w0.log <= log
    ensures FiredOnlyDue(w0, due0, log + [Dropped(handle)]) <==> FiredOnlyDue(w0, due0, log)
    ensures log + [] == log
  {
    var log' := log + [Dropped(handle)];
    assert forall k :: 0 <= k < |log| ==> log'[k] == log[k];
  }

  lemma CommandKeepsFireInv(w0: World, due0: seq<TimerId>, w: World, t: Tally, command: Command)
    requires FireInv(w0, due0, w, t)
    ensures FireInv(w0, due0, Done(w, command), TallyCommand(w, t, command))
  {
    hide FiredOnlyDue, IsNextFree;
    match command
    case Schedule(_, _, _) =>
      if HasFreeId(w.queue) {
        var id := NextFree(w.queue);
        DropsFireNothing(w0, due0, w.log, if id in w.timers then w.timers[id].handle else 0);
      }
    case Clear(id) =>
      DropsFireNothing(w0, due0, w.log, if id in w.timers then w.timers[id].handle else 0);
    case Refresh(_, _) =>
  }

  lemma {:induction false} CommandsKeepFireInv(
    w0: World, due0: seq<TimerId>, w: World, t: Tally, commands: seq<Command>)
    requires FireInv(w0, due0, w, t)
    ensures FireInv(w0, due0, AllDone(w, commands), TallyCommands(w, t, commands))
    decreases |commands|
  {
    hide FireInv, Done, TallyCommand;
    if commands != [] {
      CommandKeepsFireInv(w0, due0, w, t, commands[0]);
      CommandsKeepFireInv(w0, due0, Done(w, commands[0]), TallyCommand(w, t, commands[0]), commands[1..]);
    }
  }

  lemma CallKeepsFireInv(w0: World, due0: seq<TimerId>, w: World, t: Tally, id: TimerId)
    requires Handled(w0) && FireInv(w0, due0, w, t) && id in due0 && id in w.timers
    ensures FireInv(w0, due0, Called(w, id), TallyCall(t, id))
  {
    var log' := Called(w, id).log;
    assert log' == w.log + [Fired(w.timers[id].handle)];
    assert forall k :: 0 <= k < |w.log| ==> log'[k] == w.log[k];
    assert log'[|w.log|] == Fired(w.timers[id].handle);
  }

  lemma {:induction false} BatchFires(
    w0: World, due0: seq<TimerId>, w: World, due: seq<TimerId>, acts: TimerId -> Act, t: Tally)
    requires Handled(w0) && FireInv(w0, due0, w, t) && forall id <- due :: id in due0
    ensures FireInv(w0, due0, BatchRun(w, due, acts).0, TallyBatch(w, due, acts, t).0)
    decreases |due|
  {
    hide FireInv, Handled, AllDone, TallyCommands, TallyCall;
    if due != [] {
      if due[0] in w.timers {
        CallKeepsFireInv(w0, due0, w, t, due[0]);
        var t1, act := TallyCall(t, due[0]), acts(due[0]);
        CommandsKeepFireInv(w0, due0, Called(w, due[0]), t1, act.commands);
        BatchFires(
          w0, due0, Dispatched(w, due[0], act), due[1..], acts, TallyCommands(Called(w, due[0]), t1, act.commands));
      } else {
        BatchFires(w0, due0, w, due[1..], acts, t);
      }
    }
  }

  /** No timer fires before its time - all that a batch fires had due ids when it was taken - exactly
      when no callback was given an id that waited and whose new timer lived until the id's turn. */
  lemma FiresOnlyDueIff(w: World, now: nat, due: seq<TimerId>, acts: TimerId -> Act)
    requires Handled(w) && IsBatch(w.queue, now, due)
    ensures var taken := w.(queue := Taken(w.queue, now));
            FiredOnlyDue(w, due, Stepped(w, Batch(now, due, acts)).0.log)
            <==> !TallyBatch(taken, due, acts, NOTHING).0.early
  {
    hide TallyBatch, BatchRun, Taken, IsBatch;
    var taken := w.(queue := Taken(w.queue, now));
    assert FireInv(taken, due, taken, NOTHING);
    BatchFires(taken, due, taken, due, acts, NOTHING);
    assert forall log :: FiredOnlyDue(w, due, log) <==> FiredOnlyDue(taken, due, log);
  }

  // ---- A simple case: no waiting id is given out ----

  lemma {:induction false} CommandsGiveNoWaiting(w: World, t: Tally, commands: seq<Command>, waiting: set<TimerId>)
    requires AllAvoidWaiting(w, commands, waiting) && t.given.Keys !! waiting
    ensures TallyCommands(w, t, commands).given.Keys !! waiting
    ensures TallyCommands(w, t, commands).early == t.early
    decreases |commands|
  {
    hide Done, IsNextFree;
    if commands != [] {
      CommandsGiveNoWaiting(Done(w, commands[0]), TallyCommand(w, t, commands[0]), commands[1..], waiting);
    }
  }

  lemma {:induction false} AvoidingIsNotEarly(w: World, due: seq<TimerId>, acts: TimerId -> Act, t: Tally)
    requires NoRepeats(due) && BatchAvoidsWaiting(w, due, acts) && t.given.Keys !! IdsOf(due) && !t.early
    ensures !TallyBatch(w, due, acts, t).0.early
    decreases |due|
  {
    hide AllAvoidWaiting, TallyCommands, AllDone;
    if due != [] {
      assert forall id :: id in IdsOf(due[1..]) ==> id in IdsOf(due);
      assert due[0] in IdsOf(due) && TallyCall(t, due[0]) == t;
      if due[0] in w.timers {
        CommandsGiveNoWaiting(Called(w, due[0]), t, acts(due[0]).commands, IdsOf(due[1..]));
        AvoidingIsNotEarly(Dispatched(w, due[0], acts(due[0])), due[1..], acts,
                           TallyCommands(Called(w, due[0]), t, acts(due[0]).commands));
      } else {
        AvoidingIsNotEarly(w, due[1..], acts, t);
      }
    }
  }

  // ---- Whether the tables keep the same ids ----

  /** A one-shot timer of `timers` that waits and was neither cleared nor replaced. */
  predicate StillWaits(timers: map<TimerId, Timer>, t: Tally, id: TimerId) {
    id in timers && !timers[id].repeating && id !in t.given && id !in t.cleared
  }

  /** While a batch that began with `timers` runs: how the tables differ. */
  ghost predicate IdInv(timers: map<TimerId, Timer>, w: World, due: seq<TimerId>, t: Tally) {
    && Waits(w.queue)
    && (forall id <- w.queue.entries ::
          if id in t.lost then id !in w.timers
          else id in w.timers && w.timers[id].repeating == w.queue.entries[id].repeating)
    && (forall id <- t.lost :: id in w.queue.entries && id !in due)
    && (forall id <- w.timers :: id !in w.queue.entries ==> id in due && StillWaits(timers, t, id))
    && (forall id <- due :: StillWaits(timers, t, id) ==> id in w.timers && id !in w.queue.entries)
    && (forall id <- t.given :: id in w.timers && id in w.queue.entries && w.timers[id].repeating == t.given[id])
    && (forall id <- w.timers :: id !in t.given ==> id in timers && w.timers[id] == timers[id])
    && (forall id <- due :: id in w.queue.entries && id !in t.given ==> w.queue.entries[id].repeating)
  }

  lemma ScheduleKeepsIdInv(timers: map<TimerId, Timer>, w: World, due: seq<TimerId>, t: Tally, command: Command)
    requires IdInv(timers, w, due, t) && command.Schedule?
    ensures IdInv(timers, Done(w, command), due, TallyCommand(w, t, command))
  {
    hide IsNextFree;
    if HasFreeId(w.queue) {
      NextFreeIsFree(w.queue);
    }
  }

  lemma NextFreeIsFree(q: Queue)
    requires HasFreeId(q)
    ensures NextFree(q) !in q.entries
  {}

  lemma OtherKeepsIdInv(timers: map<TimerId, Timer>, w: World, due: seq<TimerId>, t: Tally, command: Command)
    requires IdInv(timers, w, due, t) && !command.Schedule?
    ensures IdInv(timers, Done(w, command), due, TallyCommand(w, t, command))
  {}

  lemma {:induction false} CommandsKeepIdInv(
    timers: map<TimerId, Timer>, w: World, due: seq<TimerId>, t: Tally, commands: seq<Command>)
    requires IdInv(timers, w, due, t)
    ensures IdInv(timers, AllDone(w, commands), due, TallyCommands(w, t, commands))
    decreases |commands|
  {
    hide IdInv, Done, TallyCommand;
    if commands != [] {
      if commands[0].Schedule? {
        ScheduleKeepsIdInv(timers, w, due, t, commands[0]);
      } else {
        OtherKeepsIdInv(timers, w, due, t, commands[0]);
      }
      CommandsKeepIdInv(timers, Done(w, commands[0]), due, TallyCommand(w, t, commands[0]), commands[1..]);
    }
  }

  lemma CallKeepsIdInv(timers: map<TimerId, Timer>, w: World, due: seq<TimerId>, t: Tally)
    requires due != [] && NoRepeats(due) && IdInv(timers, w, due, t)
    ensures if due[0] in w.timers then IdInv(timers, Called(w, due[0]), due[1..], TallyCall(t, due[0]))
            else IdInv(timers, w, due[1..], t)
  {
    assert forall id :: id in due <==> id == due[0] || id in due[1..];
    assert due[0] !in due[1..];
  }

  lemma {:induction false} BatchKeepsIdInv(
    timers: map<TimerId, Timer>, w: World, due: seq<TimerId>, acts: TimerId -> Act, t: Tally)
    requires NoRepeats(due) && IdInv(timers, w, due, t)
    ensures var (t', rest) := TallyBatch(w, due, acts, t);
            IdInv(timers, BatchRun(w, due, acts).0, rest, t') && rest == BatchRun(w, due, acts).1
    decreases |due|
  {
    hide IdInv, AllDone, TallyCommands, TallyCall;
    if due != [] {
      CallKeepsIdInv(timers, w, due, t);
      if due[0] in w.timers {
        var t1, act := TallyCall(t, due[0]), acts(due[0]);
        CommandsKeepIdInv(timers, Called(w, due[0]), due[1..], t1, act.commands);
        BatchKeepsIdInv(
          timers, Dispatched(w, due[0], act), due[1..], acts, TallyCommands(Called(w, due[0]), t1, act.commands));
      } else {
        BatchKeepsIdInv(timers, w, due[1..], acts, t);
      }
    }
  }

  /** Whether a batch leaves no id in one table only: none is lost, and a throw leaves no one-shot
      timer behind that was neither cleared nor replaced. */
  ghost predicate KeepsIds(w: World, due: seq<TimerId>, acts: TimerId -> Act) {
    var (t, rest) := TallyBatch(w, due, acts, NOTHING);
    t.lost == {} && forall id <- rest :: !StillWaits(w.timers, t, id)
  }

  ghost predicate StepKeepsIds(w: World, step: Step) {
    match step
    case Script(_) => true
    case Batch(now, due, acts) => KeepsIds(w.(queue := Taken(w.queue, now)), due, acts)
  }

  lemma TakingStartsIdInv(w: World, now: nat, due: seq<TimerId>)
    requires Agree(w, {}) && IsBatch(w.queue, now, due)
    ensures IdInv(w.timers, w.(queue := Taken(w.queue, now)), due, NOTHING) && NoRepeats(due)
  {
    TakingKeepsAgreement(w, now, due);
    assert forall id :: id in IdsOf(due) <==> id in due;
  }

  lemma IdInvAtEnd(timers: map<TimerId, Timer>, w: World, rest: seq<TimerId>, t: Tally)
    requires IdInv(timers, w, rest, t)
    ensures SameIds(w) <==> t.lost == {} && forall id <- rest :: !StillWaits(timers, t, id)
    ensures SameIds(w) ==> Agree(w, {})
  {
    if SameIds(w) {
      assert forall id <- t.lost :: id in w.queue.entries.Keys && id !in w.timers.Keys;
    }
  }

  lemma {:induction false} AvoidNothing(w: World, commands: seq<Command>)
    ensures AllAvoidWaiting(w, commands, {})
    decreases |commands|
  {
    hide Done, NextFree;
    if commands != [] {
      AvoidNothing(Done(w, commands[0]), commands[1..]);
    }
  }

  /** A script between batches keeps the tables alike; a batch does exactly when it loses no id and
      leaves no one-shot timer behind. */
  lemma SameIdsAfterStepIff(w: World, step: Step)
    requires Agree(w, {}) && Enabled(w, step)
    ensures SameIds(Stepped(w, step).0) <==> StepKeepsIds(w, step)
    ensures SameIds(Stepped(w, step).0) ==> Agree(Stepped(w, step).0, {})
  {
    hide Agree, IdInv, Taken, IsBatch, BatchRun, AllDone, TallyBatch, SameIds;
    match step
    case Script(commands) =>
      AvoidNothing(w, commands);
      CommandsKeepAgreement(w, commands, {});
      NoneWaiting(AllDone(w, commands));
    case Batch(now, due, acts) =>
      var taken := w.(queue := Taken(w.queue, now));
      TakingStartsIdInv(w, now, due);
      BatchKeepsIdInv(w.timers, taken, due, acts, NOTHING);
      var (t, rest) := TallyBatch(taken, due, acts, NOTHING);
      IdInvAtEnd(w.timers, BatchRun(taken, due, acts).0, rest, t);
  }

  /** The tables hold the same ids between all calls of a run exactly when every batch of it keeps
      them so, throws and ids that come round included. */
  lemma {:induction false} SameIdsThroughoutIff(worlds: seq<World>, steps: seq<Step>)
    requires IsRun(worlds, steps) && Agree(worlds[0], {})
    ensures (forall w <- worlds :: SameIds(w)) <==> forall k :: 0 <= k < |steps| ==> StepKeepsIds(worlds[k], steps[k])
    decreases |steps|
  {
    hide Enabled, Stepped, StepKeepsIds, SameIds, Agree;
    NoneWaiting(worlds[0]);
    if steps == [] {
      assert worlds == [worlds[0]];
    } else {
      assert Enabled(worlds[0], steps[0]) && worlds[1] == Stepped(worlds[0], steps[0]).0;
      SameIdsAfterStepIff(worlds[0], steps[0]);
      assert worlds == [worlds[0]] + worlds[1..];
      assert worlds[1] in worlds;
      if SameIds(worlds[1]) {
        SameIdsThroughoutIff(worlds[1..], steps[1..]);
        ShiftSteps(worlds, steps);
      }
    }
  }

  lemma ShiftSteps(worlds: seq<World>, steps: seq<Step>)
    requires steps != [] && |worlds| == |steps| + 1
    ensures (forall k :: 0 <= k < |steps| ==> StepKeepsIds(worlds[k], steps[k]))
            <==> StepKeepsIds(worlds[0], steps[0])
                 && forall k :: 0 <= k < |steps| - 1 ==> StepKeepsIds(worlds[1..][k], steps[1..][k])
  {
    hide StepKeepsIds;
    if forall k :: 0 <= k < |steps| - 1 ==> StepKeepsIds(worlds[1..][k], steps[1..][k]) {
      forall k | 1 <= k < |steps|
        ensures StepKeepsIds(worlds[k], steps[k])
      {
        assert StepKeepsIds(worlds[1..][k - 1], steps[1..][k - 1]);
      }
    }
  }

  // ---- What a throw leaves behind, where no waiting id is given out ----

  function ClearedBy(commands: seq<Command>): set<TimerId> {
    if commands == [] then {} else (if commands[0].Clear? then {commands[0].id} else {}) + ClearedBy(commands[1..])
  }

  /** The first callback that is still known and throws leaves behind no one-shot timer but those that
      it or a callback before it clears. */
  predicate LeavesNoOneShot(timers: map<TimerId, Timer>, due: seq<TimerId>, acts: TimerId -> Act, cleared: set<TimerId>)
    decreases |due|
  {
    due == [] ||
    if due[0] !in timers || due[0] in cleared then LeavesNoOneShot(timers, due[1..], acts, cleared)
    else
      var cleared' := cleared + ClearedBy(acts(due[0]).commands);
      if acts(due[0]).throws then forall id <- due[1..] :: id in timers && !timers[id].repeating ==> id in cleared'
      else LeavesNoOneShot(timers, due[1..], acts, cleared')
  }

  /** While a batch runs in which no waiting id is given out. */
  ghost predicate TrackInv(timers: map<TimerId, Timer>, w: World, due: seq<TimerId>, t: Tally) {
    && (forall id <- due :: id in w.timers <==> id in timers && id !in t.cleared)
    && (forall id <- due :: id !in t.given) && t.lost == {}
  }

  lemma {:induction false} CommandsTrack(
    timers: map<TimerId, Timer>, w: World, due: seq<TimerId>, t: Tally, commands: seq<Command>)
    requires TrackInv(timers, w, due, t) && AllAvoidWaiting(w, commands, IdsOf(due))
    ensures TrackInv(timers, AllDone(w, commands), due, TallyCommands(w, t, commands))
    ensures TallyCommands(w, t, commands).cleared == t.cleared + ClearedBy(commands)
    decreases |commands|
  {
    hide IsNextFree;
    if commands != [] {
      CommandsTrack(timers, Done(w, commands[0]), due, TallyCommand(w, t, commands[0]), commands[1..]);
    }
  }

  lemma {:induction false} BatchTracks(
    timers: map<TimerId, Timer>, w: World, due: seq<TimerId>, acts: TimerId -> Act, t: Tally)
    requires NoRepeats(due) && BatchAvoidsWaiting(w, due, acts) && TrackInv(timers, w, due, t)
    ensures var (t', rest) := TallyBatch(w, due, acts, t);
            (t'.lost == {} && forall id <- rest :: !StillWaits(timers, t', id))
            <==> LeavesNoOneShot(timers, due, acts, t.cleared)
    decreases |due|
  {
    hide AllDone, TallyCommands, AllAvoidWaiting, ClearedBy;
    if due != [] {
      assert forall id :: id in due <==> id == due[0] || id in due[1..];
      assert due[0] !in due[1..];
      if due[0] in w.timers {
        var act := acts(due[0]);
        assert TallyCall(t, due[0]) == t && TrackInv(timers, Called(w, due[0]), due[1..], t);
        CommandsTrack(timers, Called(w, due[0]), due[1..], t, act.commands);
        BatchTracks(
          timers, Dispatched(w, due[0], act), due[1..], acts, TallyCommands(Called(w, due[0]), t, act.commands));
      } else {
        BatchTracks(timers, w, due[1..], acts, t);
      }
    }
  }

  /** Where no callback is given a waiting id, a batch leaves the same ids in both tables exactly when
      the first throw leaves no one-shot timer behind. */
  lemma SameIdsAfterBatchIff(w: World, now: nat, due: seq<TimerId>, acts: TimerId -> Act)
    requires Agree(w, {}) && IsBatch(w.queue, now, due)
    requires BatchAvoidsWaiting(w.(queue := Taken(w.queue, now)), due, acts)
    ensures SameIds(Stepped(w, Batch(now, due, acts)).0) <==> LeavesNoOneShot(w.timers, due, acts, {})
  {
    hide BatchRun, BatchAvoidsWaiting, Taken, IsBatch, TallyBatch, LeavesNoOneShot, StillWaits, SameIds;
    TakingStartsIdInv(w, now, due);
    SameIdsAfterStepIff(w, Batch(now, due, acts));
    var taken := w.(queue := Taken(w.queue, now));
    DueAreKnown(w, now, due);
    BatchTracks(w.timers, taken, due, acts, NOTHING);
  }

  lemma DueAreKnown(w: World, now: nat, due: seq<TimerId>)
    requires Agree(w, {}) && IsBatch(w.queue, now, due)
    ensures TrackInv(w.timers, w.(queue := Taken(w.queue, now)), due, NOTHING)
  {}

  // ---- Runs from the start ----

  lemma {:induction false} CommandsKeepHandled(w: World, commands: seq<Command>)
    requires Handled(w)
    ensures Handled(AllDone(w, commands))
  {
    CommandsAreSilent(w, commands, 0);
  }

  lemma {:induction false} BatchKeepsHandled(w: World, due: seq<TimerId>, acts: TimerId -> Act)
    requires Handled(w)
    ensures Handled(BatchRun(w, due, acts).0)
    decreases |due|
  {
    hide Handled, AllDone, FiredTimes, Gone;
    if due != [] {
      if due[0] in w.timers {
        CallFiresOnce(w, due[0], 0);
        CommandsKeepHandled(Called(w, due[0]), acts(due[0]).commands);
      }
      BatchKeepsHandled(Dispatched(w, due[0], acts(due[0])), due[1..], acts);
    }
  }

  /** All that a step fires are timers that were due when their batch was taken. */
  ghost predicate FiresInTime(w: World, step: Step) {
    step.Batch? ==> FiredOnlyDue(w, step.due, Stepped(w, step).0.log)
  }

  /** No callback of the step was given an id that waited and whose new timer lived until the id's
      turn. */
  ghost predicate IsPunctual(w: World, step: Step) {
    match step
    case Script(_) => true
    case Batch(now, due, acts) => !TallyBatch(w.(queue := Taken(w.queue, now)), due, acts, NOTHING).0.early
  }

  lemma StepKeepsHandled(w: World, step: Step)
    requires Handled(w)
    ensures Handled(Stepped(w, step).0)
  {
    hide AllDone, BatchRun;
    match step
    case Script(commands) => CommandsKeepHandled(w, commands);
    case Batch(now, due, acts) => BatchKeepsHandled(w.(queue := Taken(w.queue, now)), due, acts);
  }

  lemma {:induction false} HandledThroughout(worlds: seq<World>, steps: seq<Step>)
    requires IsRun(worlds, steps) && Handled(worlds[0])
    ensures forall k :: 0 <= k < |worlds| ==> Handled(worlds[k])
    decreases |steps|
  {
    hide Enabled, Stepped, Handled;
    if steps != [] {
      assert worlds[1] == Stepped(worlds[0], steps[0]).0;
      StepKeepsHandled(worlds[0], steps[0]);
      HandledThroughout(worlds[1..], steps[1..]);
      forall k | 1 <= k < |worlds|
        ensures Handled(worlds[k])
      {
        assert Handled(worlds[1..][k - 1]);
      }
    }
  }

  /** In any run, throws and ids that come round included, a step fires no timer before its time exactly
      when none of its callbacks was given a waiting id whose new timer lived until the id's turn. */
  lemma FiresInTimeThroughoutIff(worlds: seq<World>, steps: seq<Step>)
    requires IsRun(worlds, steps) && Handled(worlds[0])
    ensures forall k :: 0 <= k < |steps| ==> (FiresInTime(worlds[k], steps[k]) <==> IsPunctual(worlds[k], steps[k]))
  {
    hide Stepped, Handled, FiredOnlyDue, TallyBatch;
    HandledThroughout(worlds, steps);
    forall k | 0 <= k < |steps|
      ensures FiresInTime(worlds[k], steps[k]) <==> IsPunctual(worlds[k], steps[k])
    {
      assert Enabled(worlds[k], steps[k]);
      if steps[k].Batch? {
        FiresOnlyDueIff(worlds[k], steps[k].now, steps[k].due, steps[k].acts);
      }
    }
  }

  lemma StepFiresInTime(w: World, step: Step, more: nat)
    requires Handled(w) && Enabled(w, step) && Unwrapped(w, {}, StepSchedules(step) + more)
    ensures FiresInTime(w, step)
    ensures Handled(Stepped(w, step).0) && Unwrapped(Stepped(w, step).0, {}, more)
  {
    hide Unwrapped, BatchRun, AllDone, TallyBatch, FiredOnlyDue, BatchAvoidsWaiting, AllAvoidWaiting;
    match step
    case Script(commands) =>
      CommandsStayUnwrapped(w, commands, {}, more);
      CommandsKeepHandled(w, commands);
    case Batch(now, due, acts) =>
      var taken := w.(queue := Taken(w.queue, now));
      TakingStaysUnwrapped(w, now, due, StepSchedules(step) + more);
      BatchStaysUnwrapped(taken, due, acts, more);
      FiresOnlyDueIff(w, now, due, acts);
      BatchHasNoRepeats(w.queue, now, due);
      AvoidingIsNotEarly(taken, due, acts, NOTHING);
      BatchKeepsHandled(taken, due, acts);
  }

  lemma BatchHasNoRepeats(q: Queue, now: nat, due: seq<TimerId>)
    requires IsBatch(q, now, due)
    ensures NoRepeats(due)
  {}

  /** In any run, throws included, no timer fires before its time as long as ids do not come round. */
  lemma {:induction false} NoTimerFiresEarly(worlds: seq<World>, steps: seq<Step>)
    requires IsRun(worlds, steps) && Handled(worlds[0]) && Unwrapped(worlds[0], {}, AllSchedules(steps))
    ensures forall k :: 0 <= k < |steps| ==> FiresInTime(worlds[k], steps[k])
    decreases |steps|
  {
    hide Enabled, Stepped, Handled, Unwrapped, FiresInTime;
    if steps != [] {
      assert Enabled(worlds[0], steps[0]) && worlds[1] == Stepped(worlds[0], steps[0]).0;
      StepFiresInTime(worlds[0], steps[0], AllSchedules(steps[1..]));
      NoTimerFiresEarly(worlds[1..], steps[1..]);
      forall k | 1 <= k < |steps|
        ensures FiresInTime(worlds[k], steps[k])
      {
        assert FiresInTime(worlds[1..][k - 1], steps[1..][k - 1]);
      }
    }
  }

  /** A step leaves no one-shot timer behind, where ids do not come round. */
  predicate StepLeavesNoOneShot(w: World, step: Step) {
    match step
    case Script(_) => true
    case Batch(_, due, acts) => LeavesNoOneShot(w.timers, due, acts, {})
  }

  lemma UnwrappedStepIff(w: World, step: Step, more: nat)
    requires Agree(w, {}) && Enabled(w, step) && Unwrapped(w, {}, StepSchedules(step) + more)
    ensures SameIds(Stepped(w, step).0) <==> StepLeavesNoOneShot(w, step)
    ensures SameIds(Stepped(w, step).0) ==> Agree(Stepped(w, step).0, {})
    ensures Unwrapped(Stepped(w, step).0, {}, more)
  {
    hide Agree, Unwrapped, Taken, IsBatch, BatchRun, AllDone, BatchAvoidsWaiting, AllAvoidWaiting, SameIds;
    hide KeepsIds, LeavesNoOneShot;
    SameIdsAfterStepIff(w, step);
    match step
    case Script(commands) => CommandsStayUnwrapped(w, commands, {}, more);
    case Batch(now, due, acts) =>
      TakingStaysUnwrapped(w, now, due, StepSchedules(step) + more);
      BatchStaysUnwrapped(w.(queue := Taken(w.queue, now)), due, acts, more);
      SameIdsAfterBatchIff(w, now, due, acts);
  }

  /** As long as ids do not come round, the tables hold the same ids between all calls of a run exactly
      when no throw in it leaves a one-shot timer behind. */
  lemma {:induction false} SameIdsIffNoneLeft(worlds: seq<World>, steps: seq<Step>)
    requires IsRun(worlds, steps) && Agree(worlds[0], {}) && Unwrapped(worlds[0], {}, AllSchedules(steps))
    ensures (forall w <- worlds :: SameIds(w)) <==>
            forall k :: 0 <= k < |steps| ==> StepLeavesNoOneShot(worlds[k], steps[k])
    decreases |steps|
  {
    hide Enabled, Stepped, StepLeavesNoOneShot, SameIds, Agree, Unwrapped;
    NoneWaiting(worlds[0]);
    if steps == [] {
      assert worlds == [worlds[0]];
    } else {
      assert Enabled(worlds[0], steps[0]) && worlds[1] == Stepped(worlds[0], steps[0]).0;
      UnwrappedStepIff(worlds[0], steps[0], AllSchedules(steps[1..]));
      assert worlds == [worlds[0]] + worlds[1..];
      assert worlds[1] in worlds;
      if SameIds(worlds[1]) {
        SameIdsIffNoneLeft(worlds[1..], steps[1..]);
        ShiftLeaves(worlds, steps);
      }
    }
  }

  lemma ShiftLeaves(worlds: seq<World>, steps: seq<Step>)
    requires steps != [] && |worlds| == |steps| + 1
    ensures (forall k :: 0 <= k < |steps| ==> StepLeavesNoOneShot(worlds[k], steps[k]))
            <==> StepLeavesNoOneShot(worlds[0], steps[0])
                 && forall k :: 0 <= k < |steps| - 1 ==> StepLeavesNoOneShot(worlds[1..][k], steps[1..][k])
  {
    hide StepLeavesNoOneShot;
    if forall k :: 0 <= k < |steps| - 1 ==> StepLeavesNoOneShot(worlds[1..][k], steps[1..][k]) {
      forall k | 1 <= k < |steps|
        ensures StepLeavesNoOneShot(worlds[k], steps[k])
      {
        assert StepLeavesNoOneShot(worlds[1..][k - 1], steps[1..][k - 1]);
      }
    }
  }

  lemma {:induction false} WithoutThrowsNoneIsLeft(
    timers: map<TimerId, Timer>, due: seq<TimerId>, acts: TimerId -> Act, cleared: set<TimerId>)
    requires forall id <- due :: !acts(id).throws
    ensures LeavesNoOneShot(timers, due, acts, cleared)
    decreases |due|
  {
    hide ClearedBy;
    if due != [] {
      WithoutThrowsNoneIsLeft(timers, due[1..], acts, cleared);
      WithoutThrowsNoneIsLeft(timers, due[1..], acts, cleared + ClearedBy(acts(due[0]).commands));
    }
  }

  /** From a kernel without timers, where fewer are scheduled than there are ids: no timer fires before
      its time, and the tables hold the same ids between all calls exactly when no throw leaves a
      one-shot timer behind, as when no callback throws. */
  lemma SameIdsFromTheStart(worlds: seq<World>, steps: seq<Step>)
    requires IsRun(worlds, steps) && worlds[0] == NO_TIMERS && AllSchedules(steps) < LAST_ID
    ensures forall k :: 0 <= k < |steps| ==> FiresInTime(worlds[k], steps[k])
    ensures (forall w <- worlds :: SameIds(w)) <==>
            forall k :: 0 <= k < |steps| ==> StepLeavesNoOneShot(worlds[k], steps[k])
    ensures (forall step <- steps :: !Throws(step)) ==> forall w <- worlds :: SameIds(w)
  {
    hide Enabled, Stepped, AllSchedules, SameIds, Agree, Unwrapped, Handled, LeavesNoOneShot, FiresInTime;
    NoTimersAgree(AllSchedules(steps));
    SameIdsIffNoneLeft(worlds, steps);
    NoTimerFiresEarly(worlds, steps);
    if forall step <- steps :: !Throws(step) {
      forall k | 0 <= k < |steps|
        ensures StepLeavesNoOneShot(worlds[k], steps[k])
      {
        assert steps[k] in steps;
        if steps[k].Batch? {
          WithoutThrowsNoneIsLeft(worlds[k].timers, steps[k].due, steps[k].acts, {});
        }
      }
    }
  }
}
