/** The two timer tables as they are updated in place (src/js_repl.rs:53-115, 424-440;
    src/js_repl_bootstrap.js:64-104). */
module TimerTables {
  import opened Options
  import opened Timers

  class TimerQueue {
    var nextId: TimerId
    var entries: map<TimerId, Entry>

    function Table(): Queue
      reads this
    {
      Queue(nextId, entries)
    }

    constructor ()
      ensures Table() == Queue(1, map[])
    {
      nextId := 1;
      entries := map[];
    }

    method NextAvailableId() returns (id: TimerId)
      requires HasFreeId(Table())
      modifies `nextId
      ensures id == NextFree(old(Table())) && nextId == After(id)
    {
      ghost var free := NextFree(Table());
      ghost var from := nextId;
      while true
        invariant Ahead(from, nextId) <= Ahead(from, free)
        invariant Ahead(from, nextId) + Ahead(nextId, free) == Ahead(from, free)
        decreases Ahead(nextId, free)
      {
        id := nextId;
        nextId := After(nextId);
        if id !in entries {
          assert Ahead(from, free) <= Ahead(from, id);
          return;
        }
      }
    }

    method Schedule(duration: nat, repeating: bool, now: nat) returns (id: TimerId)
      requires HasFreeId(Table())
      modifies this
      ensures id == NextFree(old(Table()))
      ensures Table() == Queue(After(id), old(entries)[id := Entry(now + duration, duration, repeating)])
    {
      id := NextAvailableId();
      entries := entries[id := Entry(now + duration, duration, repeating)];
    }

    method Clear(id: TimerId)
      modifies `entries
      ensures entries == old(entries) - {id}
    {
      entries := entries - {id};
    }

    method Refresh(id: TimerId, now: nat)
      modifies `entries
      ensures Table() == Refreshed(old(Table()), id, now)
    {
      if id in entries {
        entries := entries[id := entries[id].(due := now + entries[id].delay)];
      }
    }

    method TakeDue(now: nat) returns (due: seq<TimerId>)
      modifies `entries
      ensures IsBatch(old(Table()), now, due) && Table() == Taken(old(Table()), now)
    {
      due := DueInOrder(now);
      ghost var before := Table();
      ghost var done: set<TimerId> := {};
      var i := 0;
      while i < |due|
        invariant 0 <= i <= |due| && nextId == before.nextId
        invariant done == (set k | 0 <= k < i :: due[k]) && done <= before.entries.Keys
        invariant entries.Keys <= before.entries.Keys
        invariant forall id <- before.entries :: id !in done ==> id in entries && entries[id] == before.entries[id]
        invariant forall id <- done ::
          if before.entries[id].repeating
          then id in entries && entries[id] == before.entries[id].(due := now + before.entries[id].delay)
          else id !in entries
      {
        var id := due[i];
        assert id in due && id !in done;
        var timer := entries[id];
        entries := entries - {id};
        if timer.repeating {
          entries := entries[id := timer.(due := now + timer.delay)];
        }
        done := done + {id};
        i := i + 1;
      }
      assert forall id: TimerId :: id in done <==> IsDue(before, now, id);
    }

    /** The due ids, sorted by deadline and id. */
    method DueInOrder(now: nat) returns (due: seq<TimerId>)
      ensures IsBatch(Table(), now, due)
    {
      due := [];
      var keys := entries.Keys;
      while keys != {}
        invariant keys <= entries.Keys
        invariant forall id: TimerId :: id in due <==> IsDue(Table(), now, id) && id !in keys
        invariant forall i, j :: 0 <= i < j < |due| ==> Before(Table(), due[i], due[j])
        decreases |keys|
      {
        var id :| id in keys;
        keys := keys - {id};
        if entries[id].due <= now {
          due := Inserted(Table(), due, id);
        }
      }
    }

    method NextDeadline() returns (deadline: Option<nat>)
      ensures deadline.None? <==> entries == map[]
      ensures deadline.Some? ==> forall id <- entries :: deadline.value <= entries[id].due
      ensures deadline.Some? ==> exists id :: id in entries && entries[id].due == deadline.value
    {
      deadline := None;
      var keys := entries.Keys;
      while keys != {}
        invariant keys <= entries.Keys
        invariant deadline.None? <==> keys == entries.Keys
        invariant deadline.Some? ==> forall id :: id in entries && id !in keys ==> deadline.value <= entries[id].due
        invariant deadline.Some? ==> exists id :: id in entries && entries[id].due == deadline.value
        decreases |keys|
      {
        var id :| id in keys;
        keys := keys - {id};
        if deadline.None? || entries[id].due < deadline.value {
          deadline := Some(entries[id].due);
        }
      }
    }
  }

  /** The script's side: its map of timers beside the kernel's table. */
  class ScriptTimers {
    const queue: TimerQueue
    var timers: map<TimerId, Timer>
    var handles: nat
    ghost var log: seq<Event>

    ghost function Tables(): World
      reads this, queue
    {
      World(queue.Table(), timers, handles, log)
    }

    constructor ()
      ensures Tables() == World(Queue(1, map[]), map[], 0, []) && fresh(queue)
    {
      queue := new TimerQueue();
      timers := map[];
      handles := 0;
      log := [];
    }

    method ScheduleTimer(delay: Number, repeating: bool, now: nat) returns (handle: nat)
      requires HasFreeId(queue.Table())
      modifies this, queue
      ensures Tables() == Scheduled(old(Tables()), delay, repeating, now) && handle == old(handles)
    {
      var id := queue.Schedule(NormalizedDelay(delay) * MILLISECOND, repeating, now);
      handle := handles;
      handles := handles + 1;
      log := log + Drop(old(Tables()), id);
      timers := timers[id := Timer(handle, repeating)];
    }

    method ClearTimer(id: TimerId)
      modifies this, queue
      ensures Tables() == Cleared(old(Tables()), id)
    {
      log := log + Drop(Tables(), id);
      timers := timers - {id};
      queue.Clear(id);
    }

    /** One command of a script. A script that schedules when no id is left would wait for ever in
        the kernel; here the command is passed over. */
    method Perform(command: Command)
      modifies this, queue
      ensures Tables() == Done(old(Tables()), command)
    {
      match command
      case Schedule(delay, repeating, now) =>
        FreeIdIffRoom(queue.Table());
        if |queue.entries| < LAST_ID {
          var _ := ScheduleTimer(delay, repeating, now);
        }
      case Clear(id) => ClearTimer(id);
      case Refresh(id, now) => queue.Refresh(id, now);
    }

    method PerformAll(commands: seq<Command>)
      modifies this, queue
      ensures Tables() == AllDone(old(Tables()), commands)
    {
      hide Done;
      var i := 0;
      while i < |commands|
        invariant 0 <= i <= |commands|
        invariant AllDone(Tables(), commands[i..]) == AllDone(old(Tables()), commands)
      {
        assert commands[i..][1..] == commands[i + 1..];
        Perform(commands[i]);
        i := i + 1;
      }
    }

    /** `__insulatorRunTimer`; `act` is what the callback does when it is called. */
    method RunTimer(id: TimerId, act: Act) returns (threw: bool)
      modifies this, queue
      ensures Tables() == Dispatched(old(Tables()), id, act)
      ensures threw == (id in old(timers) && act.throws)
    {
      hide AllDone;
      if id !in timers {
        return false;
      }
      var timer := timers[id];
      if !timer.repeating {
        timers := timers - {id};
      }
      log := log + [Fired(timer.handle)];
      assert Tables() == Called(old(Tables()), id);
      PerformAll(act.commands);
      return act.throws;
    }

    /** One round of `run_due_timers`: take what is due and call it, up to a throw. */
    method RunBatch(now: nat, acts: TimerId -> Act) returns (due: seq<TimerId>, rest: seq<TimerId>)
      modifies this, queue
      ensures Enabled(old(Tables()), Batch(now, due, acts))
      ensures (Tables(), rest) == Stepped(old(Tables()), Batch(now, due, acts))
    {
      hide AllDone, Taken, IsBatch;
      due := queue.TakeDue(now);
      ghost var w := old(Tables());
      ghost var taken := w.(queue := Taken(w.queue, now));
      assert due[0..] == due;
      var i := 0;
      while i < |due|
        invariant 0 <= i <= |due|
        invariant BatchRun(Tables(), due[i..], acts) == BatchRun(taken, due, acts)
      {
        assert due[i..][1..] == due[i + 1..];
        var threw := RunTimer(due[i], acts(due[i]));
        i := i + 1;
        if threw {
          return due, due[i..];
        }
      }
      return due, [];
    }
  }

  /** An id at its place among sorted ids. */
  function Inserted(q: Queue, sorted: seq<TimerId>, id: TimerId): (r: seq<TimerId>)
    requires id in q.entries && id !in sorted
    requires forall i, j :: 0 <= i < j < |sorted| ==> Before(q, sorted[i], sorted[j])
    requires forall other <- sorted :: other in q.entries
    ensures forall other: TimerId :: other in r <==> other == id || other in sorted
    ensures forall i, j :: 0 <= i < j < |r| ==> Before(q, r[i], r[j])
  {
    if sorted == [] then [id]
    else if Before(q, id, sorted[0]) then
      assert forall j :: 0 < j < |sorted| ==> Before(q, sorted[0], sorted[j]);
      [id] + sorted
    else
      var rest := Inserted(q, sorted[1..], id);
      assert forall other <- rest :: other == id || other in sorted[1..];
      assert forall other :: other in sorted[1..] ==> Before(q, sorted[0], other);
      assert sorted[0] in sorted && Before(q, sorted[0], id);
      assert forall k :: 0 <= k < |rest| ==> rest[k] in rest;
      assert forall k :: 0 <= k < |rest| ==> Before(q, sorted[0], rest[k]);
      [sorted[0]] + rest
  }
}
