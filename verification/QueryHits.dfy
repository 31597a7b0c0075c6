/** How long a stored value stays a hit: until it is dropped or as many other keys as the cache has room
    for were used since (src/query.rs:87-249). */
module QueryHits {
  import opened QueryCaches
  import opened QueryProtocol

  /** The value is there, and only keys of `used` were used later. */
  ghost predicate Recent<K, V>(c: Cache<K, V>, key: K, value: V, used: set<K>) {
    && key in c.entries && c.entries[key].slot == Ready(value) && key !in used
    && forall j :: j in c.entries && c.entries[key].lastUsed < c.entries[j].lastUsed ==> j in used
  }

  lemma {:induction false} FewerThan<T>(a: set<T>, b: set<T>)
    requires a <= b
    ensures |a| <= |b|
  {
    assert b == a + (b - a);
  }

  /** Eviction drops values for newer ones only, and only as many as do not fit. */
  lemma ValueIsKept<K, V>(entries: map<K, Cached<V>>, capacity: nat, key: K, used: set<K>)
    requires StampsDistinct(entries) && key in entries && entries[key].slot.Ready? && key !in used
    requires forall j :: j in entries && entries[key].lastUsed < entries[j].lastUsed ==> j in used
    requires |used| < capacity
    ensures key in EvictReady(entries, capacity)
  {
    hide StampsDistinct;
    var kept := EvictReady(entries, capacity);
    EvictReadyKeepsNewest(entries, capacity);
    if |ReadyKeys(entries)| > capacity && key !in kept {
      forall k | k in ReadyKeys(kept)
        ensures k in used
      {
        DroppedIsOlder(entries, kept, ReadyKeys(entries), key, k);
      }
      FewerThan(ReadyKeys(kept), used);
    }
  }

  lemma EvictKeepsRecent<K, V>(c: Cache<K, V>, key: K, value: V, used: set<K>)
    requires Sane(c) && Recent(c, key, value, used) && |used| < c.capacity
    ensures Recent(Evict(c), key, value, used) && Evict(c).capacity == c.capacity
  {
    hide EvictReady, LoadingVictims, StampsDistinct;
    ValueIsKept(c.entries, c.capacity, key, used);
    EvictRestoresBounds(c);
    LeftIsBounded(c);
    EvictReadyKeepsNewest(c.entries, c.capacity);
    assert key !in LoadingKeys(c.entries);
  }

  // ---- One call ----

  /** The keys that a call uses. */
  ghost function Uses<K, V>(w: World<K, V>, cmd: Command<K, V>): set<K> {
    match cmd
    case CmdRead(key) => {key}
    case CmdInsert(key, _) => {key}
    case CmdFulfill(i, _) => if i in w.held then {w.held[i].key} else {}
    case _ => {}
  }

  /** The call neither drops the value of the key nor stores another. */
  predicate Spares<K(==), V>(cmd: Command<K, V>, key: K) {
    && (cmd.CmdInsert? ==> cmd.key != key)
    && (cmd.CmdInvalidate? ==> cmd.key != key)
    && !cmd.CmdClear?
  }

  /** The entry of another key, stored or used just now, makes that key used later. */
  lemma OtherIsUsed<K, V>(
    c: Cache<K, V>, c': Cache<K, V>, other: K, entry: Cached<V>, key: K, value: V, used: set<K>)
    requires Recent(c, key, value, used) && other != key && c'.entries == c.entries[other := entry]
    ensures Recent(c', key, value, used + {other})
  {}

  lemma MoreUsed<K, V>(c: Cache<K, V>, key: K, value: V, used: set<K>, more: set<K>)
    requires Recent(c, key, value, used) && used <= more && key !in more
    ensures Recent(c, key, value, more)
  {}

  lemma ReadKeepsRecent<K, V>(w: World<K, V>, other: K, key: K, value: V, used: set<K>)
    requires Inv(w) && Recent(w.cache, key, value, used) && |used + ({other} - {key})| < w.cache.capacity
    ensures Recent(DoRead(w, other).cache, key, value, used + ({other} - {key}))
    ensures DoRead(w, other).cache.capacity == w.cache.capacity
  {
    hide Evict, Recent, Inv;
    if other == key {
      OwnRead(w, key, value, used);
    } else {
      assert {other} - {key} == {other};
      if other in w.cache.entries {
        var entry := w.cache.entries[other].(lastUsed := w.cache.clock + 1);
        OtherIsUsed(w.cache, DoRead(w, other).cache, other, entry, key, value, used);
      } else {
        ClaimedIsSane(w, other);
        OtherIsUsed(w.cache, Claimed(w, other).cache, other, Cached(Loading, w.cache.generation, w.cache.clock + 1),
                    key, value, used);
        EvictKeepsRecent(Claimed(w, other).cache, key, value, used + {other});
      }
    }
  }

  lemma ClaimedIsSane<K, V>(w: World<K, V>, key: K)
    requires Inv(w) && key !in w.cache.entries
    ensures Sane(Claimed(w, key).cache)
  {
    hide Core, Bounded, Fresh;
    ClaimKeepsCore(w, key);
    CoreIsSane(Claimed(w, key));
  }

  lemma PutIsSane<K, V>(w: World<K, V>, key: K, value: V)
    requires Inv(w)
    ensures Sane(Put(w, key, value).cache)
  {
    hide Core, Bounded, Fresh;
    PutKeepsCore(w, key, value);
    CoreIsSane(Put(w, key, value));
  }

  lemma StoredIsSane<K, V>(w: World<K, V>, i: nat, value: V)
    requires Inv(w) && i in w.held && Matches(w.cache, w.held[i])
    ensures Sane(Stored(w, i, value).cache)
  {
    hide Core, Bounded, Fresh, Matches;
    AcceptedIffFresh(w, i);
    StoreKeepsCore(w, i, value);
    CoreIsSane(Stored(w, i, value));
  }

  lemma OwnRead<K, V>(w: World<K, V>, key: K, value: V, used: set<K>)
    requires Inv(w) && Recent(w.cache, key, value, used)
    ensures DoRead(w, key).cache.capacity == w.cache.capacity && {key} - {key} == {}
    ensures Recent(DoRead(w, key).cache, key, value, used + ({key} - {key}))
  {
    hide Evict, HeldSane, FreshOwns, SupersededIsOld, LoadingIsOwned, OneFreshPerKey;
    assert {key} - {key} == {} && used + {} == used;
  }

  lemma InsertKeepsRecent<K, V>(w: World<K, V>, other: K, stored: V, key: K, value: V, used: set<K>)
    requires Inv(w) && Recent(w.cache, key, value, used) && other != key && |used + {other}| < w.cache.capacity
    ensures Recent(DoInsert(w, other, stored).cache, key, value, used + {other})
    ensures DoInsert(w, other, stored).cache.capacity == w.cache.capacity
  {
    hide Evict, Recent, Inv;
    PutIsSane(w, other, stored);
    OtherIsUsed(w.cache, Put(w, other, stored).cache, other,
                Cached(Ready(stored), w.cache.generation + 1, w.cache.clock + 1), key, value, used);
    EvictKeepsRecent(Put(w, other, stored).cache, key, value, used + {other});
  }

  /** No held token could still be accepted for a value that is there. */
  lemma NoTokenForValue<K, V>(w: World<K, V>, i: nat, key: K, value: V, used: set<K>)
    requires Inv(w) && i in w.held && Recent(w.cache, key, value, used) && w.held[i].key == key
    ensures !Matches(w.cache, w.held[i])
  {
    AcceptedIffFresh(w, i);
  }

  lemma FulfillKeepsRecent<K, V>(w: World<K, V>, i: nat, stored: V, key: K, value: V, used: set<K>)
    requires Inv(w) && i in w.held && Recent(w.cache, key, value, used)
    requires |used + ({w.held[i].key} - {key})| < w.cache.capacity
    ensures Recent(DoFulfill(w, i, stored).cache, key, value, used + ({w.held[i].key} - {key}))
    ensures DoFulfill(w, i, stored).cache.capacity == w.cache.capacity
  {
    hide Evict, Recent, Inv, Matches;
    var other := w.held[i].key;
    var more := used + ({other} - {key});
    assert key !in used by { NotUsed(w.cache, key, value, used); }
    if Matches(w.cache, w.held[i]) {
      if other == key {
        NoTokenForValue(w, i, key, value, used);
      } else {
        assert more == used + {other};
        StoredIsSane(w, i, stored);
        OtherIsUsed(w.cache, Stored(w, i, stored).cache, other,
                    Cached(Ready(stored), w.held[i].generation, w.cache.clock + 1), key, value, used);
        EvictKeepsRecent(Stored(w, i, stored).cache, key, value, more);
      }
    } else {
      MoreUsed(w.cache, key, value, used, more);
    }
  }

  lemma NotUsed<K, V>(c: Cache<K, V>, key: K, value: V, used: set<K>)
    requires Recent(c, key, value, used)
    ensures key !in used
  {}

  lemma AbandonKeepsRecent<K, V>(w: World<K, V>, i: nat, key: K, value: V, used: set<K>)
    requires Inv(w) && i in w.held && Recent(w.cache, key, value, used)
    ensures Recent(DoAbandon(w, i).cache, key, value, used) && DoAbandon(w, i).cache.capacity == w.cache.capacity
  {
    hide Inv;
    if w.held[i].key == key {
      NoTokenForValue(w, i, key, value, used);
    }
  }

  lemma StepKeepsRecent<K, V>(w: World<K, V>, cmd: Command<K, V>, key: K, value: V, used: set<K>)
    requires Inv(w) && Recent(w.cache, key, value, used) && Spares(cmd, key)
    requires |used + (Uses(w, cmd) - {key})| < w.cache.capacity
    ensures Recent(Step(w, cmd).cache, key, value, used + (Uses(w, cmd) - {key}))
    ensures Step(w, cmd).cache.capacity == w.cache.capacity
  {
    hide Inv, DoRead, DoInsert, DoFulfill, DoAbandon, Recent;
    assert {} - {key} == {} && used + {} == used;
    match cmd
    case CmdRead(other) => ReadKeepsRecent(w, other, key, value, used);
    case CmdInsert(other, stored) =>
      assert {other} - {key} == {other};
      InsertKeepsRecent(w, other, stored, key, value, used);
    case CmdFulfill(i, stored) =>
      if i in w.held {
        FulfillKeepsRecent(w, i, stored, key, value, used);
      }
    case CmdAbandon(i) =>
      if i in w.held {
        AbandonKeepsRecent(w, i, key, value, used);
      }
    case CmdInvalidate(other) => InvalidateKeepsRecent(w, other, key, value, used);
    case CmdClear =>
  }

  lemma InvalidateKeepsRecent<K, V>(w: World<K, V>, other: K, key: K, value: V, used: set<K>)
    requires Recent(w.cache, key, value, used) && other != key
    ensures Recent(DoInvalidate(w, other).cache, key, value, used)
  {}

  // ---- Runs ----

  ghost function UsedIn<K, V>(w: World<K, V>, cmds: seq<Command<K, V>>): set<K>
    requires Inv(w)
    decreases |cmds|
  {
    if cmds == [] then {} else Uses(w, cmds[0]) + UsedIn(Step(w, cmds[0]), cmds[1..])
  }

  lemma {:induction false} RunKeepsRecent<K, V>(
    w: World<K, V>, cmds: seq<Command<K, V>>, key: K, value: V, used: set<K>)
    requires Inv(w) && Recent(w.cache, key, value, used)
    requires forall cmd :: cmd in cmds ==> Spares(cmd, key)
    requires |used + (UsedIn(w, cmds) - {key})| < w.cache.capacity
    ensures Recent(Run(w, cmds).cache, key, value, used + (UsedIn(w, cmds) - {key}))
    decreases |cmds|
  {
    hide Inv, Recent, Step, Spares, Uses;
    if cmds == [] {
      assert UsedIn(w, cmds) - {key} == {} && used + {} == used;
    } else {
      var now := used + (Uses(w, cmds[0]) - {key});
      var rest := UsedIn(Step(w, cmds[0]), cmds[1..]);
      assert used + (UsedIn(w, cmds) - {key}) == now + (rest - {key});
      FewerThan(now, now + (rest - {key}));
      StepKeepsRecent(w, cmds[0], key, value, used);
      RunKeepsRecent(Step(w, cmds[0]), cmds[1..], key, value, now);
    }
  }

  lemma ReadOfValueIsRecent<K, V>(w: World<K, V>, key: K, value: V)
    requires Inv(w) && Read(w.cache, key).1 == Hit(value)
    ensures Recent(DoRead(w, key).cache, key, value, {}) && DoRead(w, key).cache.capacity == w.cache.capacity
  {
    hide Evict, HeldSane, FreshOwns, SupersededIsOld, LoadingIsOwned, OneFreshPerKey;
  }

  /** A value that was read once more stays a hit for as long as nothing drops it or stores another, and
      fewer other keys than the cache has room for are read, stored or fetched. */
  lemma ValueStaysWhileThereIsRoom<K, V>(
    capacity: nat, before: seq<Command<K, V>>, key: K, value: V, later: seq<Command<K, V>>)
    requires Inv(NewWorld<K, V>(capacity))
    requires Read(Run(NewWorld(capacity), before).cache, key).1 == Hit(value)
    requires forall cmd :: cmd in later ==> Spares(cmd, key)
    requires var w := Step(Run(NewWorld(capacity), before), CmdRead(key));
             |UsedIn(w, later) - {key}| < (if capacity == 0 then 1 else capacity)
    ensures var w := Step(Run(NewWorld(capacity), before), CmdRead(key));
            Read(Run(w, later).cache, key).1 == Hit(value)
  {
    hide Inv, Spares, UsedIn, Evict;
    var w := Run(NewWorld<K, V>(capacity), before);
    RunKeepsCapacity(NewWorld<K, V>(capacity), before);
    ReadOfValueIsRecent(w, key, value);
    var w1 := Step(w, CmdRead(key));
    assert {} + (UsedIn(w1, later) - {key}) == UsedIn(w1, later) - {key};
    RunKeepsRecent(w1, later, key, value, {});
  }
}
