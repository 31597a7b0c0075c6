/** Timers kept in two tables: deadlines in the kernel (src/js_repl.rs:42-115) and callbacks in the
    script (src/js_repl_bootstrap.js:50-104). Values here; TimerTables.dfy has the tables. */
module Timers {

  const LAST_ID: int := 0xFFFF_FFFF
  const MAX_DELAY: nat := 2147483647

  /** Nanoseconds, the grain of the clock. */
  const MILLISECOND: nat := 1_000_000

  type TimerId = id: int | 0 < id <= LAST_ID witness 1

  datatype Entry = Entry(due: nat, delay: nat, repeating: bool)

  /** The kernel's table. */
  datatype Queue = Queue(nextId: TimerId, entries: map<TimerId, Entry>)

  // ---- Delays ----

  /** A script number, as far as a delay needs one. */
  datatype Number = NotFinite | Finite(value: real)

  /** The delay in milliseconds that is asked of the kernel. */
  function NormalizedDelay(delay: Number): (ms: nat)
    ensures 1 <= ms <= MAX_DELAY
    ensures if delay.Finite? && 1.0 <= delay.value <= MAX_DELAY as real
            then ms as real <= delay.value < ms as real + 1.0 else ms == 1
  {
    if delay.NotFinite? || delay.value < 1.0 || delay.value > MAX_DELAY as real then 1
    else delay.value.Floor
  }

  // ---- Ids ----

  /** The id to try after this one: one more, or the first after the last. */
  function After(id: TimerId): TimerId {
    if id == LAST_ID then 1 else id + 1
  }

  /** How many ids are tried before `id`, from `from` on. */
  function Ahead(from: TimerId, id: TimerId): nat {
    if from <= id then id - from else id + LAST_ID - from
  }

  ghost predicate HasFreeId(q: Queue) {
    exists id: TimerId :: id !in q.entries
  }

  /** The first free id from the next one on, around the end. */
  ghost predicate IsNextFree(q: Queue, id: TimerId) {
    id !in q.entries && forall other: TimerId :: other !in q.entries ==> Ahead(q.nextId, id) <= Ahead(q.nextId, other)
  }

  lemma {:induction false} NextFreeExists(q: Queue, free: TimerId)
    requires free !in q.entries
    ensures exists id: TimerId :: IsNextFree(q, id)
    decreases Ahead(q.nextId, free)
  {
    if other: TimerId :| other !in q.entries && Ahead(q.nextId, other) < Ahead(q.nextId, free) {
      NextFreeExists(q, other);
    } else {
      assert IsNextFree(q, free);
    }
  }

  ghost function NextFree(q: Queue): (id: TimerId)
    requires HasFreeId(q)
    ensures IsNextFree(q, id)
  {
    var free: TimerId :| free !in q.entries;
    NextFreeExists(q, free);
    var id: TimerId :| IsNextFree(q, id);
    id
  }

  /** An id is free exactly when there are fewer timers than ids. */
  lemma FreeIdIffRoom(q: Queue)
    ensures HasFreeId(q) <==> |q.entries| < LAST_ID
  {
    if free: TimerId :| free !in q.entries {
      IdsWithin(q.entries.Keys + {free}, LAST_ID);
    } else {
      IdsUpTo(q.entries.Keys, LAST_ID);
    }
  }

  lemma {:induction false} IdsWithin(ids: set<TimerId>, n: nat)
    requires forall id <- ids :: id <= n
    ensures |ids| <= n
  {
    if n > 0 {
      if n <= LAST_ID {
        IdsWithin(ids - {n}, n - 1);
      } else {
        IdsWithin(ids, n - 1);
      }
    }
  }

  lemma {:induction false} IdsUpTo(ids: set<TimerId>, n: nat)
    requires n <= LAST_ID && forall id: TimerId :: id <= n ==> id in ids
    ensures |ids| >= n
  {
    if n > 0 {
      IdsUpTo(ids - {n}, n - 1);
    }
  }

  // ---- Taking what is due ----

  ghost predicate IsDue(q: Queue, now: nat, id: TimerId) {
    id in q.entries && q.entries[id].due <= now
  }

  predicate Before(q: Queue, a: TimerId, b: TimerId) {
    && a in q.entries && b in q.entries
    && (q.entries[a].due < q.entries[b].due || (q.entries[a].due == q.entries[b].due && a < b))
  }

  /** The ids that are due, earliest first, lower id first among equals. */
  ghost predicate IsBatch(q: Queue, now: nat, due: seq<TimerId>) {
    && (forall id: TimerId :: id in due <==> IsDue(q, now, id))
    && forall i, j :: 0 <= i < j < |due| ==> Before(q, due[i], due[j])
  }

  /** The table after its due timers were taken: repeating ones count from now again, others are
      gone. */
  function Taken(q: Queue, now: nat): Queue {
    q.(entries := map id | id in q.entries && (q.entries[id].due > now || q.entries[id].repeating) ::
         if q.entries[id].due > now then q.entries[id] else q.entries[id].(due := now + q.entries[id].delay))
  }

  /** Every timer waits for some time when it starts. */
  predicate Waits(q: Queue) {
    forall id <- q.entries :: q.entries[id].delay > 0
  }

  /** Nothing is due right after taking what is due: a repeating timer cannot fire twice at once. */
  lemma NothingDueAfterTaking(q: Queue, now: nat)
    requires Waits(q)
    ensures Waits(Taken(q, now)) && forall id :: !IsDue(Taken(q, now), now, id)
  {}

  /** One time has one batch. */
  lemma {:induction false} BatchIsUnique(q: Queue, now: nat, a: seq<TimerId>, b: seq<TimerId>)
    requires IsBatch(q, now, a) && IsBatch(q, now, b)
    ensures a == b
  {
    SortedIsUnique(q, a, b);
  }

  lemma {:induction false} SortedIsUnique(q: Queue, a: seq<TimerId>, b: seq<TimerId>)
    requires forall id: TimerId :: id in a <==> id in b
    requires forall i, j :: 0 <= i < j < |a| ==> Before(q, a[i], a[j])
    requires forall i, j :: 0 <= i < j < |b| ==> Before(q, b[i], b[j])
    ensures a == b
  {
    assert a != [] ==> a[0] in b;
    assert b != [] ==> b[0] in a;
    if a != [] && b != [] {
      assert a[0] == b[0];
      forall id: TimerId
        ensures id in a[1..] <==> id in b[1..]
      {
        if id in a[1..] {
          assert id in a;
        }
        if id in b[1..] {
          assert id in b;
        }
      }
      SortedIsUnique(q, a[1..], b[1..]);
    }
  }

  // ---- Both tables ----

  /** A script's timer: the handle it was given out with, and whether it repeats. */
  datatype Timer = Timer(handle: nat, repeating: bool)

  /** What became of a timer. */
  datatype Event = Fired(handle: nat) | Dropped(handle: nat)

  datatype World = World(queue: Queue, timers: map<TimerId, Timer>, handles: nat, log: seq<Event>)

  datatype Command =
    | Schedule(delay: Number, repeating: bool, now: nat)
    | Clear(id: TimerId)
    | Refresh(id: TimerId, now: nat)

  function Drop(w: World, id: TimerId): seq<Event> {
    if id in w.timers then [Dropped(w.timers[id].handle)] else []
  }

  /** `scheduleTimer`; with no id left the kernel looks for one for ever. */
  ghost function Scheduled(w: World, delay: Number, repeating: bool, now: nat): World {
    if !HasFreeId(w.queue) then w
    else
      var id := NextFree(w.queue);
      var duration := NormalizedDelay(delay) * MILLISECOND;
      World(Queue(After(id), w.queue.entries[id := Entry(now + duration, duration, repeating)]),
            w.timers[id := Timer(w.handles, repeating)], w.handles + 1, w.log + Drop(w, id))
  }

  function Cleared(w: World, id: TimerId): World {
    w.(queue := w.queue.(entries := w.queue.entries - {id}), timers := w.timers - {id}, log := w.log + Drop(w, id))
  }

  function Refreshed(q: Queue, id: TimerId, now: nat): Queue {
    if id in q.entries then q.(entries := q.entries[id := q.entries[id].(due := now + q.entries[id].delay)]) else q
  }

  ghost function Done(w: World, command: Command): World {
    match command
    case Schedule(delay, repeating, now) => Scheduled(w, delay, repeating, now)
    case Clear(id) => Cleared(w, id)
    case Refresh(id, now) => w.(queue := Refreshed(w.queue, id, now))
  }

  ghost function AllDone(w: World, commands: seq<Command>): World
    decreases |commands|
  {
    if commands == [] then w else AllDone(Done(w, commands[0]), commands[1..])
  }

  /** What a callback does when it is called: commands, and whether it ends by throwing. */
  datatype Act = Act(commands: seq<Command>, throws: bool)

  /** The tables when a timer's callback starts. */
  function Called(w: World, id: TimerId): World
    requires id in w.timers
  {
    var timer := w.timers[id];
    w.(timers := if timer.repeating then w.timers else w.timers - {id}, log := w.log + [Fired(timer.handle)])
  }

  /** `__insulatorRunTimer`. */
  ghost function Dispatched(w: World, id: TimerId, act: Act): World {
    if id !in w.timers then w else AllDone(Called(w, id), act.commands)
  }

  /** A batch from its first id on, and the ids that a throw left undone. */
  ghost function BatchRun(w: World, due: seq<TimerId>, acts: TimerId -> Act): (World, seq<TimerId>)
    decreases |due|
  {
    if due == [] then (w, [])
    else
      var w' := Dispatched(w, due[0], acts(due[0]));
      if due[0] in w.timers && acts(due[0]).throws then (w', due[1..]) else BatchRun(w', due[1..], acts)
  }

  /** What happens to the timers: a script runs, or a batch is taken and run. */
  datatype Step = Script(commands: seq<Command>) | Batch(now: nat, due: seq<TimerId>, acts: TimerId -> Act)

  ghost predicate Enabled(w: World, step: Step) {
    step.Batch? ==> IsBatch(w.queue, step.now, step.due)
  }

  ghost function Stepped(w: World, step: Step): (World, seq<TimerId>) {
    match step
    case Script(commands) => (AllDone(w, commands), [])
    case Batch(now, due, acts) => BatchRun(w.(queue := Taken(w.queue, now)), due, acts)
  }
}
