/** Runs from a kernel without timers in which the tables come apart: a callback that throws, and an
    id that comes round while it waits (src/js_repl.rs:74-82, 424-440). */
module TimerExamples {
  import opened TimerAgreement
  import opened TimerBatches
  import opened Timers

  const SOON: Command := Schedule(Finite(1.0), false, 0)
  const LATER: Command := Schedule(Finite(1000.0), false, MILLISECOND)

  lemma {:induction false} DoneInTwo(w: World, a: seq<Command>, b: seq<Command>)
    ensures AllDone(w, a + b) == AllDone(AllDone(w, a), b)
    decreases |a|
  {
    hide Done;
    if a == [] {
      assert a + b == b;
    } else {
      assert (a + b)[1..] == a[1..] + b;
      DoneInTwo(Done(w, a[0]), a[1..], b);
    }
  }

  lemma NextIsFree(q: Queue)
    requires q.nextId !in q.entries
    ensures HasFreeId(q) && NextFree(q) == q.nextId
  {
    assert IsNextFree(q, q.nextId) && IsNextFree(q, NextFree(q));
    assert Ahead(q.nextId, NextFree(q)) <= Ahead(q.nextId, q.nextId) == 0;
  }

  lemma DelaysInNanoseconds()
    ensures NormalizedDelay(Finite(1.0)) == 1 && NormalizedDelay(Finite(1000.0)) == 1000
  {}

  // ---- Two timers ----

  /** Two one-shot timers that are due after a millisecond. */
  const ENTRIES: map<TimerId, Entry> :=
    map[1 := Entry(MILLISECOND, MILLISECOND, false), 2 := Entry(MILLISECOND, MILLISECOND, false)]
  const TIMERS: map<TimerId, Timer> := map[1 := Timer(0, false), 2 := Timer(1, false)]

  function Waiting(nextId: TimerId, handles: nat, log: seq<Event>): World {
    World(Queue(nextId, ENTRIES), TIMERS, handles, log)
  }

  lemma TwoTimers()
    ensures AllDone(NO_TIMERS, [SOON, SOON]) == Waiting(3, 2, [])
  {
    DelaysInNanoseconds();
    NextIsFree(NO_TIMERS.queue);
    var w1 := Done(NO_TIMERS, SOON);
    NextIsFree(w1.queue);
    var w2 := Done(w1, SOON);
    assert w2.queue.entries == ENTRIES && w2.timers == TIMERS;
    assert [SOON, SOON][1..] == [SOON] && [SOON][1..] == [];
    assert AllDone(NO_TIMERS, [SOON, SOON]) == AllDone(w1, [SOON]) == AllDone(w2, []);
  }

  lemma BothAreDue(w: World)
    requires w.queue.entries == ENTRIES
    ensures IsBatch(w.queue, MILLISECOND, [1, 2]) && Taken(w.queue, MILLISECOND) == Queue(w.queue.nextId, map[])
  {}

  // ---- The first throws ----

  function FirstThrows(id: TimerId): Act {
    Act([], id == 1)
  }

  /** The first of two timers throws: the second stays in the script's table, never to fire. */
  lemma ThrowStrandsTheSecond()
    ensures var w := AllDone(NO_TIMERS, [SOON, SOON]);
            var step := Batch(MILLISECOND, [1, 2], FirstThrows);
            && Enabled(w, step) && !LeavesNoOneShot(w.timers, [1, 2], FirstThrows, {})
            && var w' := Stepped(w, step).0;
               !SameIds(w') && 2 in w'.timers && Dead(w', w'.timers[2].handle, [])
  {
    TwoTimers();
    var w := Waiting(3, 2, []);
    BothAreDue(w);
    var taken := w.(queue := Queue(3, map[]));
    var called := Called(taken, 1);
    assert AllDone(called, []) == called && Dispatched(taken, 1, FirstThrows(1)) == called;
    var both: seq<TimerId> := [1, 2];
    assert both[1..] == [2];
    assert BatchRun(taken, [1, 2], FirstThrows) == (called, [2]);
    assert 2 in called.timers && 2 !in called.queue.entries;
  }

  // ---- The first refreshes the second ----

  function FirstRefreshes(id: TimerId): Act {
    Act(if id == 1 then [Refresh(2, MILLISECOND)] else [], false)
  }

  /** The first of two timers refreshes the second, which the kernel has already handed out: the second
      is called at once and is in neither table afterwards, though it should wait for a millisecond. */
  lemma RefreshIsLost()
    ensures var w := AllDone(NO_TIMERS, [SOON, SOON]);
            var step := Batch(MILLISECOND, [1, 2], FirstRefreshes);
            && Enabled(w, step)
            && var w' := Stepped(w, step).0;
               w'.log == [Fired(0), Fired(1)] && w'.queue.entries == map[] && w'.timers == map[]
  {
    hide Called;
    TwoTimers();
    var w := Waiting(3, 2, []);
    BothAreDue(w);
    var taken := w.(queue := Queue(3, map[]));
    BothAreCalled(taken);
    var w1 := Called(taken, 1);
    var refresh := Refresh(2, MILLISECOND);
    assert [refresh][1..] == [];
    assert AllDone(w1, [refresh]) == AllDone(Done(w1, refresh), []) == w1;
    DoneNothing(Called(w1, 2));
    var both: seq<TimerId> := [1, 2];
    assert both[1..] == [2] && both[1..][1..] == [];
    assert Dispatched(taken, 1, FirstRefreshes(1)) == w1 && Dispatched(w1, 2, FirstRefreshes(2)) == Called(w1, 2);
    assert BatchRun(taken, both, FirstRefreshes) == BatchRun(w1, [2], FirstRefreshes)
        == BatchRun(Called(w1, 2), [], FirstRefreshes);
  }

  lemma BothAreCalled(w: World)
    requires w.queue.entries == map[] && w.timers == TIMERS && w.log == []
    ensures var w1 := Called(w, 1);
            && 2 in w1.timers && w1.queue == w.queue
            && var w2 := Called(w1, 2);
               w2.log == [Fired(0), Fired(1)] && w2.queue == w.queue && w2.timers == map[]
  {}

  // ---- Ids come round ----

  /** Scheduling and clearing one timer after the other uses up ids. */
  function Spin(k: nat): seq<Command>
    requires k <= LAST_ID - 2
  {
    if k == 0 then [] else Spin(k - 1) + [SOON, Clear(k + 2)]
  }

  function SpunOff(k: nat): (log: seq<Event>)
    ensures |log| == k
  {
    seq(k, i requires 0 <= i < k => Dropped(i + 2))
  }

  /** Two timers wait, and `k` others came and went. */
  function Spun(k: nat): World
    requires k <= LAST_ID - 2
  {
    Waiting(if k == LAST_ID - 2 then 1 else k + 3, k + 2, SpunOff(k))
  }

  lemma SpinOnce(k: nat)
    requires 0 < k <= LAST_ID - 2
    ensures AllDone(Spun(k - 1), [SOON, Clear(k + 2)]) == Spun(k)
  {
    DelaysInNanoseconds();
    var w := Spun(k - 1);
    assert w.queue.nextId == k + 2;
    NextIsFree(w.queue);
    var w1 := Done(w, SOON);
    var w2 := Done(w1, Clear(k + 2));
    assert w2.queue.entries == ENTRIES && w2.timers == TIMERS;
    assert w2.log == SpunOff(k - 1) + [] + [Dropped(k + 1)] == SpunOff(k);
    assert [SOON, Clear(k + 2)][1..] == [Clear(k + 2)] && [Clear(k + 2)][1..] == [];
    assert AllDone(w, [SOON, Clear(k + 2)]) == AllDone(w1, [Clear(k + 2)]) == AllDone(w2, []);
  }

  lemma {:induction false} SpinRuns(k: nat)
    requires k <= LAST_ID - 2
    ensures AllDone(Spun(0), Spin(k)) == Spun(k)
  {
    hide AllDone, Spun;
    if k == 0 {
      DoneNothing(Spun(0));
    } else {
      SpinRuns(k - 1);
      DoneInTwo(Spun(0), Spin(k - 1), [SOON, Clear(k + 2)]);
      SpinOnce(k);
    }
  }

  lemma DoneNothing(w: World)
    ensures AllDone(w, []) == w
  {}

  /** A script that schedules two timers and uses up all other ids. */
  function LeadUp(): seq<Command> {
    [SOON, SOON] + Spin(LAST_ID - 2)
  }

  lemma LeadUpRuns()
    ensures AllDone(NO_TIMERS, LeadUp()) == Waiting(1, LAST_ID, SpunOff(LAST_ID - 2))
  {
    hide AllDone, Spin, Waiting;
    TwoTimers();
    assert SpunOff(0) == [];
    SpinRuns(LAST_ID - 2);
    DoneInTwo(NO_TIMERS, [SOON, SOON], Spin(LAST_ID - 2));
  }

  /** The first callback schedules two timers for a second later. */
  function SchedulesTwo(id: TimerId): Act {
    if id == 1 then Act([LATER, LATER], false) else Act([], false)
  }

  /** The world after that callback: ids 1 and 2 were given out again, though 2 waits. */
  function GivenAgain(w: World): World {
    var entry := Entry(1001 * MILLISECOND, 1000 * MILLISECOND, false);
    World(Queue(3, map[1 := entry, 2 := entry]), map[1 := Timer(w.handles, false), 2 := Timer(w.handles + 1, false)],
          w.handles + 2, w.log + [Fired(0), Dropped(1)])
  }

  lemma IdsAreGivenAgain(w: World)
    requires w.queue == Queue(1, map[]) && w.timers == TIMERS
    ensures AllDone(Called(w, 1), [LATER, LATER]) == GivenAgain(w)
  {
    DelaysInNanoseconds();
    var w0 := Called(w, 1);
    NextIsFree(w0.queue);
    var w1 := Done(w0, LATER);
    assert w1.log == w.log + [Fired(0)] + [];
    NextIsFree(w1.queue);
    var w2 := Done(w1, LATER);
    assert w2.queue.entries == GivenAgain(w).queue.entries && w2.timers == GivenAgain(w).timers;
    assert w2.log == w1.log + [Dropped(1)] == GivenAgain(w).log;
    assert [LATER, LATER][1..] == [LATER] && [LATER][1..] == [];
    assert AllDone(w0, [LATER, LATER]) == AllDone(w1, [LATER]) == AllDone(w2, []);
  }

  /** The second id's turn calls the new timer, a second before its time. */
  lemma NewTimerIsCalled(w: World)
    requires w.queue == Queue(1, map[]) && w.timers == TIMERS
    ensures BatchRun(w, [1, 2], SchedulesTwo).0 == Called(GivenAgain(w), 2)
  {
    hide Called, GivenAgain, AllDone;
    IdsAreGivenAgain(w);
    var g := GivenAgain(w);
    assert 2 in g.timers by {
      TwoIsGiven(w);
    }
    DoneNothing(Called(g, 2));
    var both: seq<TimerId> := [1, 2];
    assert both[1..] == [2] && both[1..][1..] == [];
    assert Dispatched(w, 1, SchedulesTwo(1)) == g && Dispatched(g, 2, SchedulesTwo(2)) == Called(g, 2);
    assert BatchRun(w, [1, 2], SchedulesTwo) == BatchRun(g, [2], SchedulesTwo)
        == BatchRun(Called(g, 2), [], SchedulesTwo);
  }

  lemma TwoIsGiven(w: World)
    ensures 2 in GivenAgain(w).timers && GivenAgain(w).timers[2].handle == w.handles + 1
  {}

  /** A run from the start in which an id comes round: the new timer fires before its time, and the
      kernel keeps an id that the script has lost. */
  lemma ReusedIdFiresEarly()
    ensures var w := AllDone(NO_TIMERS, LeadUp());
            var step := Batch(MILLISECOND, [1, 2], SchedulesTwo);
            && Enabled(w, step) && !FiresInTime(w, step) && !SameIds(Stepped(w, step).0)
            && var w' := Stepped(w, step).0;
               && w'.log[|w'.log| - 1] == Fired(w.handles + 1)
               && 2 in w'.queue.entries && w'.queue.entries[2].due > MILLISECOND && 2 !in w'.timers
  {
    hide AllDone, LeadUp, BatchRun;
    LeadUpRuns();
    var w := Waiting(1, LAST_ID, SpunOff(LAST_ID - 2));
    BothAreDue(w);
    var taken := w.(queue := Queue(1, map[]));
    NewTimerIsCalled(taken);
    var w' := Called(GivenAgain(taken), 2);
    assert w'.log == w.log + [Fired(0), Dropped(1)] + [Fired(LAST_ID + 1)];
    assert w'.log[|w.log| + 2] == Fired(LAST_ID + 1);
    assert 2 in w'.queue.entries.Keys && 2 !in w'.timers.Keys;
  }
}
