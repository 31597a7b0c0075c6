/** The fetch protocol over the query cache: which fetched values may be stored
    (src/query.rs:38-69, 103-202). A world is the cache, a log of everything that supersedes a
    fetch, and the tokens that are still held; a token is known by the place of its issue in the
    log, and using it gives it up. */
module QueryProtocol {
  import opened QueryCaches

  datatype Event<K> = Issued(key: K) | Dropped(key: K) | DroppedAll

  datatype World<K, V> = World(cache: Cache<K, V>, log: seq<Event<K>>, held: map<nat, FetchToken<K>>)

  /** Since it was issued, the key of token `i` was invalidated, inserted directly or evicted in
      flight, or the cache was cleared. */
  ghost predicate Superseded<K>(log: seq<Event<K>>, i: nat)
    requires i < |log| && log[i].Issued?
  {
    exists j :: i < j < |log| && (log[j] == DroppedAll || log[j] == Dropped(log[i].key))
  }

  /** Token `i` is held and nothing superseded it. */
  ghost predicate Fresh<K, V>(w: World<K, V>, i: nat) {
    i in w.held && i < |w.log| && w.log[i].Issued? && !Superseded(w.log, i)
  }

  function Drops<K>(keys: seq<K>): seq<Event<K>> {
    seq(|keys|, i requires 0 <= i < |keys| => Dropped(keys[i]))
  }

  // ---- The invariant ----

  ghost predicate HeldSane<K, V>(w: World<K, V>) {
    forall i :: i in w.held ==>
      i < |w.log| && w.log[i] == Issued(w.held[i].key) && w.held[i].generation <= w.cache.generation
  }

  /** A fresh token owns the slot that is loading its key. */
  ghost predicate FreshOwns<K, V>(w: World<K, V>) {
    forall i :: Fresh(w, i) ==>
      && w.held[i].key in w.cache.entries
      && w.cache.entries[w.held[i].key] .slot.Loading?
      && w.cache.entries[w.held[i].key].generation == w.held[i].generation
  }

  /** A superseded token is older than any slot that its key has or may get. */
  ghost predicate SupersededIsOld<K, V>(w: World<K, V>) {
    forall i :: i in w.held && !Fresh(w, i) ==>
      && w.held[i].generation < w.cache.generation
      && (w.held[i].key in w.cache.entries ==> w.held[i].generation < w.cache.entries[w.held[i].key].generation)
  }

  ghost predicate LoadingIsOwned<K, V>(w: World<K, V>) {
    forall k :: k in LoadingKeys(w.cache.entries) ==> exists i :: Fresh(w, i) && w.held[i].key == k
  }

  ghost predicate OneFreshPerKey<K, V>(w: World<K, V>) {
    forall i, j :: Fresh(w, i) && Fresh(w, j) && w.held[i].key == w.held[j].key ==> i == j
  }

  ghost predicate Core<K, V>(w: World<K, V>) {
    && Sane(w.cache) && HeldSane(w) && FreshOwns(w) && SupersededIsOld(w) && LoadingIsOwned(w) && OneFreshPerKey(w)
  }

  ghost predicate Inv<K, V>(w: World<K, V>) {
    Core(w) && Bounded(w.cache)
  }

  // ---- Steps ----

  /** Evicts, logging each fetch that eviction strands. */
  ghost function Evicted<K, V>(w: World<K, V>): World<K, V> {
    w.(cache := Evict(w.cache), log := w.log + Drops(Victims(w.cache)))
  }

  /** The read of a missing key before it evicts: a slot is loading and a token is held. */
  ghost function Claimed<K, V>(w: World<K, V>, key: K): World<K, V> {
    World(
      w.cache.(clock := w.cache.clock + 1,
               entries := w.cache.entries[key := Cached(Loading, w.cache.generation, w.cache.clock + 1)]),
      w.log + [Issued(key)],
      w.held[|w.log| := FetchToken(key, w.cache.generation)])
  }

  ghost function DoRead<K, V>(w: World<K, V>, key: K): World<K, V> {
    if key in w.cache.entries then w.(cache := Read(w.cache, key).0) else Evicted(Claimed(w, key))
  }

  ghost function Put<K, V>(w: World<K, V>, key: K, value: V): World<K, V> {
    w.(cache := w.cache.(generation := w.cache.generation + 1, clock := w.cache.clock + 1,
                         entries := w.cache.entries[
                           key := Cached(Ready(value), w.cache.generation + 1, w.cache.clock + 1)]),
       log := w.log + [Dropped(key)])
  }

  ghost function DoInsert<K, V>(w: World<K, V>, key: K, value: V): World<K, V> {
    Evicted(Put(w, key, value))
  }

  /** An accepted result before it evicts. */
  ghost function Stored<K, V>(w: World<K, V>, i: nat, value: V): World<K, V>
    requires i in w.held
  {
    w.(cache := w.cache.(clock := w.cache.clock + 1,
                         entries := w.cache.entries[
                           w.held[i].key := Cached(Ready(value), w.held[i].generation, w.cache.clock + 1)]),
       held := w.held - {i})
  }

  ghost function DoFulfill<K, V>(w: World<K, V>, i: nat, value: V): World<K, V>
    requires i in w.held
  {
    if Matches(w.cache, w.held[i]) then Evicted(Stored(w, i, value)) else w.(held := w.held - {i})
  }

  ghost function DoAbandon<K, V>(w: World<K, V>, i: nat): World<K, V>
    requires i in w.held
  {
    w.(cache := Abandon(w.cache, w.held[i]), held := w.held - {i})
  }

  ghost function DoInvalidate<K, V>(w: World<K, V>, key: K): World<K, V> {
    w.(cache := Invalidate(w.cache, key), log := w.log + [Dropped(key)])
  }

  ghost function DoClear<K, V>(w: World<K, V>): World<K, V> {
    w.(cache := Clear(w.cache), log := w.log + [DroppedAll])
  }

  // ---- What the log says after a step ----

  lemma LogOne<K>(log: seq<Event<K>>, e: Event<K>, i: nat)
    requires i < |log| && log[i].Issued?
    ensures (log + [e])[i] == log[i]
    ensures Superseded(log + [e], i) <==> Superseded(log, i) || e == DroppedAll || e == Dropped(log[i].key)
  {
    var log' := log + [e];
    if Superseded(log, i) {
      var j :| i < j < |log| && (log[j] == DroppedAll || log[j] == Dropped(log[i].key));
      assert log'[j] == log[j];
    }
    if e == DroppedAll || e == Dropped(log[i].key) {
      assert log'[|log|] == e;
    }
  }

  /** The tokens that were fresh stay so, but those whose key the event names. */
  lemma FreshAfterEvent<K, V>(w: World<K, V>, w': World<K, V>, e: Event<K>, i: nat)
    requires w'.log == w.log + [e] && i < |w.log| && HeldSane(w) && i in w.held
    requires i in w'.held
    ensures Fresh(w', i) <==> Fresh(w, i) && e != DroppedAll && e != Dropped(w.log[i].key)
  {
    LogOne(w.log, e, i);
  }

  // ---- Each step keeps the invariant ----

  lemma ClaimKeepsCore<K, V>(w: World<K, V>, key: K)
    requires Core(w) && key !in w.cache.entries
    ensures Core(Claimed(w, key)) && Fresh(Claimed(w, key), |w.log|)
    ensures IsNewest(Claimed(w, key).cache.entries, key)
  {
    hide Superseded;
    var w' := Claimed(w, key);
    assert w'.log[|w.log|] == Issued(key);
    assert Fresh(w', |w.log|) by { NewestIsFresh(w', |w.log|); }
    forall i | i in w.held
      ensures i in w'.held && w'.held[i] == w.held[i] && (Fresh(w', i) <==> Fresh(w, i))
    {
      assert i != |w.log|;
      FreshAfterEvent(w, w', Issued(key), i);
    }
    assert forall i :: i in w'.held ==> i in w.held || i == |w.log|;
    forall k | k in LoadingKeys(w'.cache.entries)
      ensures exists i :: Fresh(w', i) && w'.held[i].key == k
    {
      if k != key {
        assert k in LoadingKeys(w.cache.entries);
        var i :| Fresh(w, i) && w.held[i].key == k;
        assert Fresh(w', i) && w'.held[i].key == k;
      } else {
        assert Fresh(w', |w.log|) && w'.held[|w.log|].key == k;
      }
    }
  }

  lemma NewestIsFresh<K, V>(w: World<K, V>, i: nat)
    requires i in w.held && |w.log| == i + 1 && w.log[i].Issued?
    ensures Fresh(w, i)
  {}

  /** Dropping a key and advancing the generation: an invalidation, or an eviction in flight. */
  lemma DropKeepsCore<K, V>(w: World<K, V>, key: K)
    requires Core(w)
    ensures Core(DoInvalidate(w, key))
    ensures forall i :: i in w.held ==> (Fresh(DoInvalidate(w, key), i) <==> Fresh(w, i) && w.held[i].key != key)
  {
    hide Superseded;
    var w' := DoInvalidate(w, key);
    forall i | i in w.held
      ensures Fresh(w', i) <==> Fresh(w, i) && w.held[i].key != key
    {
      FreshAfterEvent(w, w', Dropped(key), i);
    }
    forall k | k in LoadingKeys(w'.cache.entries)
      ensures exists i :: Fresh(w', i) && w'.held[i].key == k
    {
      assert k in LoadingKeys(w.cache.entries);
      var i :| Fresh(w, i) && w.held[i].key == k;
      assert Fresh(w', i) && w'.held[i].key == k;
    }
  }

  lemma PutKeepsCore<K, V>(w: World<K, V>, key: K, value: V)
    requires Core(w)
    ensures Core(Put(w, key, value))
  {
    hide Superseded;
    var w' := Put(w, key, value);
    forall i | i in w.held
      ensures Fresh(w', i) <==> Fresh(w, i) && w.held[i].key != key
    {
      FreshAfterEvent(w, w', Dropped(key), i);
    }
    forall k | k in LoadingKeys(w'.cache.entries)
      ensures exists i :: Fresh(w', i) && w'.held[i].key == k
    {
      assert k in LoadingKeys(w.cache.entries);
      var i :| Fresh(w, i) && w.held[i].key == k;
      assert Fresh(w', i) && w'.held[i].key == k;
    }
  }

  lemma ClearKeepsCore<K, V>(w: World<K, V>)
    requires Core(w)
    ensures Core(DoClear(w))
  {
    hide Superseded;
    var w' := DoClear(w);
    forall i | i in w.held
      ensures !Fresh(w', i)
    {
      FreshAfterEvent(w, w', DroppedAll, i);
    }
    assert LoadingKeys(w'.cache.entries) == {};
  }

  /** Using a fresh token: its slot resolves, or goes away. */
  lemma ResolveKeepsCore<K, V>(w: World<K, V>, i: nat, w': World<K, V>)
    requires Core(w) && Fresh(w, i) && w'.log == w.log && w'.held == w.held - {i}
    requires Sane(w'.cache) && w'.cache.generation == w.cache.generation
    requires forall k :: k != w.held[i].key ==> (k in w.cache.entries <==> k in w'.cache.entries)
    requires forall k :: k in w'.cache.entries && k != w.held[i].key ==> w'.cache.entries[k] == w.cache.entries[k]
    requires w.held[i].key in w'.cache.entries ==>
               && w'.cache.entries[w.held[i].key].slot.Ready?
               && w'.cache.entries[w.held[i].key].generation == w.held[i].generation
    ensures Core(w')
  {
    hide Superseded;
    forall j | j in w'.held
      ensures j in w.held && w'.held[j] == w.held[j] && (Fresh(w', j) <==> Fresh(w, j))
    {}
    forall k | k in LoadingKeys(w'.cache.entries)
      ensures exists j :: Fresh(w', j) && w'.held[j].key == k
    {
      assert k in LoadingKeys(w.cache.entries);
      var j :| Fresh(w, j) && w.held[j].key == k;
      assert Fresh(w', j) && w'.held[j].key == k;
    }
  }

  /** Giving up a superseded token, and touching, or evicting, only slots whose fetch is over. */
  lemma QuietKeepsCore<K, V>(w: World<K, V>, w': World<K, V>)
    requires Core(w) && w'.log == w.log
    requires Sane(w'.cache) && w'.cache.generation == w.cache.generation
    requires forall i :: i in w'.held ==> i in w.held && w'.held[i] == w.held[i]
    requires forall i :: Fresh(w, i) ==> i in w'.held
    requires forall k :: k in w'.cache.entries ==>
               && k in w.cache.entries && w'.cache.entries[k].slot == w.cache.entries[k].slot
               && w'.cache.entries[k].generation == w.cache.entries[k].generation
    requires LoadingKeys(w'.cache.entries) == LoadingKeys(w.cache.entries)
    ensures Core(w')
  {
    hide Superseded;
    forall i | i in w'.held
      ensures Fresh(w', i) <==> Fresh(w, i)
    {}
    forall i | Fresh(w', i)
      ensures w'.held[i].key in LoadingKeys(w'.cache.entries)
    {
      assert Fresh(w, i);
      assert w.held[i].key in LoadingKeys(w.cache.entries);
    }
    forall k | k in LoadingKeys(w'.cache.entries)
      ensures exists j :: Fresh(w', j) && w'.held[j].key == k
    {
      var j :| Fresh(w, j) && w.held[j].key == k;
      assert Fresh(w', j) && w'.held[j].key == k;
    }
  }

  // ---- Eviction ----

  /** Drops keys one after the other. */
  ghost function DropEach<K, V>(w: World<K, V>, keys: seq<K>): World<K, V>
    decreases |keys|
  {
    if keys == [] then w else DropEach(DoInvalidate(w, keys[0]), keys[1..])
  }

  lemma {:induction false} DropEachIs<K, V>(w: World<K, V>, keys: seq<K>)
    ensures DropEach(w, keys) ==
            w.(cache := w.cache.(entries := w.cache.entries - Elements(keys),
                                 generation := w.cache.generation + |keys|),
               log := w.log + Drops(keys))
    decreases |keys|
  {
    if keys == [] {
      assert w.cache.entries - Elements(keys) == w.cache.entries;
      assert w.log + Drops(keys) == w.log;
    } else {
      DropEachIs(DoInvalidate(w, keys[0]), keys[1..]);
      assert w.cache.entries - {keys[0]} - Elements(keys[1..]) == w.cache.entries - Elements(keys);
      assert w.log + [Dropped(keys[0])] + Drops(keys[1..]) == w.log + Drops(keys);
    }
  }

  lemma {:induction false} DropEachKeepsCore<K, V>(w: World<K, V>, keys: seq<K>)
    requires Core(w)
    ensures Core(DropEach(w, keys)) && DropEach(w, keys).held == w.held
    ensures forall i :: i in w.held && w.held[i].key !in keys ==> (Fresh(DropEach(w, keys), i) <==> Fresh(w, i))
    decreases |keys|
  {
    hide Core, Fresh;
    if keys != [] {
      DropKeepsCore(w, keys[0]);
      DropEachKeepsCore(DoInvalidate(w, keys[0]), keys[1..]);
    }
  }

  /** Eviction is dropping some resolved values and then invalidating its in-flight victims. */
  lemma EvictionKeepsInv<K, V>(w: World<K, V>)
    requires Core(w)
    ensures Inv(Evicted(w)) && Evicted(w).held == w.held
    ensures forall i :: i in w.held && w.held[i].key !in Victims(w.cache) ==> (Fresh(Evicted(w), i) <==> Fresh(w, i))
  {
    hide Core, Fresh, Bounded, Sane, Evict, Victims;
    var victims := Victims(w.cache);
    ValuesEvictedKeepsCore(w);
    EvictionIsDropping(w);
    DropEachKeepsCore(ValuesEvicted(w), victims);
    CoreIsSane(w);
    EvictRestoresBounds(w.cache);
  }

  lemma CoreIsSane<K, V>(w: World<K, V>)
    requires Core(w)
    ensures Sane(w.cache)
  {}

  ghost function ValuesEvicted<K, V>(w: World<K, V>): World<K, V> {
    w.(cache := w.cache.(entries := EvictReady(w.cache.entries, w.cache.capacity)))
  }

  lemma EvictionIsDropping<K, V>(w: World<K, V>)
    ensures Evicted(w) == DropEach(ValuesEvicted(w), Victims(w.cache))
  {
    hide EvictReady, LoadingVictims, Elements;
    DropEachIs(ValuesEvicted(w), Victims(w.cache));
  }

  lemma ValuesEvictedKeepsCore<K, V>(w: World<K, V>)
    requires Core(w)
    ensures Core(ValuesEvicted(w))
    ensures forall i :: Fresh(ValuesEvicted(w), i) <==> Fresh(w, i)
  {
    hide EvictReady, Fresh, FreshOwns, HeldSane, SupersededIsOld, LoadingIsOwned, OneFreshPerKey;
    hide StampsDistinct, ReadyKeys, LoadingKeys;
    EvictReadyKeepsNewest(w.cache.entries, w.cache.capacity);
    KeptEntries(w.cache.entries, EvictReady(w.cache.entries, w.cache.capacity), ReadyKeys(w.cache.entries));
    FreshIsHeld(w);
    QuietKeepsCore(w, ValuesEvicted(w));
    SameLogSameFresh(w, ValuesEvicted(w));
  }

  lemma FreshIsHeld<K, V>(w: World<K, V>)
    ensures forall i :: Fresh(w, i) ==> i in w.held
  {}

  lemma SameLogSameFresh<K, V>(w: World<K, V>, w': World<K, V>)
    requires w'.log == w.log && w'.held == w.held
    ensures forall i :: Fresh(w, i) <==> Fresh(w', i)
  {}

  // ---- The main results ----

  /** A fetched value is accepted exactly when nothing superseded its token since it was issued. */
  lemma AcceptedIffFresh<K, V>(w: World<K, V>, i: nat)
    requires Inv(w) && i in w.held
    ensures Matches(w.cache, w.held[i]) <==> Fresh(w, i)
    ensures Fresh(w, i) <==> !Superseded(w.log, i)
  {}

  /** No two held tokens of one key could both be accepted. */
  lemma AtMostOneAcceptable<K, V>(w: World<K, V>, i: nat, j: nat)
    requires Inv(w) && i in w.held && j in w.held && w.held[i].key == w.held[j].key
    requires Matches(w.cache, w.held[i]) && Matches(w.cache, w.held[j])
    ensures i == j
  {
    AcceptedIffFresh(w, i);
    AcceptedIffFresh(w, j);
  }

  /** A key reads as pending exactly while somebody holds the token that will resolve it. */
  lemma PendingIffOwned<K, V>(w: World<K, V>, key: K)
    requires Inv(w)
    ensures Read(w.cache, key).1 == Pending <==> exists i :: Fresh(w, i) && w.held[i].key == key
  {
    assert key in LoadingKeys(w.cache.entries) <==> Read(w.cache, key).1 == Pending;
    if i :| Fresh(w, i) && w.held[i].key == key {
      assert key in LoadingKeys(w.cache.entries);
    }
  }

  lemma ReadKeepsInv<K, V>(w: World<K, V>, key: K)
    requires Inv(w)
    ensures Inv(DoRead(w, key)) && DoRead(w, key).cache == Read(w.cache, key).0
  {
    hide Fresh, Core, Bounded, Evict, Evicted, LoadingVictims, EvictReady;
    if key in w.cache.entries {
      TouchKeepsInv(w, key);
    } else {
      ClaimKeepsCore(w, key);
      EvictionKeepsInv(Claimed(w, key));
      ReadOfMissing(w, key);
    }
  }

  lemma ReadOfMissing<K, V>(w: World<K, V>, key: K)
    requires key !in w.cache.entries
    ensures Evicted(Claimed(w, key)).cache == Read(w.cache, key).0
  {
    hide Evict;
  }

  lemma TouchKeepsInv<K, V>(w: World<K, V>, key: K)
    requires Inv(w) && key in w.cache.entries
    ensures Inv(w.(cache := Read(w.cache, key).0))
  {
    hide Fresh, FreshOwns, HeldSane, SupersededIsOld, LoadingIsOwned, OneFreshPerKey, Evict, Bounded;
    TouchKeepsBounds(w.cache, key);
    TouchKeepsSlots(w.cache, key);
    FreshIsHeld(w);
    QuietKeepsCore(w, w.(cache := Read(w.cache, key).0));
  }

  lemma TouchKeepsSlots<K, V>(c: Cache<K, V>, key: K)
    requires Bounded(c) && key in c.entries
    ensures Sane(Read(c, key).0) && LoadingKeys(Read(c, key).0.entries) == LoadingKeys(c.entries)
  {
    hide Evict;
  }

  /** The token a read hands out is fresh when the read returns, even if that very read evicted
      fetches in flight; it carries the place of its issue. */
  lemma HandedOutTokenIsFresh<K, V>(w: World<K, V>, key: K)
    requires Inv(w) && key !in w.cache.entries
    ensures Fresh(DoRead(w, key), |w.log|)
    ensures Read(w.cache, key).1 == Missing(DoRead(w, key).held[|w.log|])
  {
    hide EvictReady, LoadingVictims, Fresh, FreshOwns, HeldSane, SupersededIsOld, LoadingIsOwned, OneFreshPerKey;
    var claimed := Claimed(w, key);
    ClaimKeepsCore(w, key);
    NewestStays(claimed.cache, key);
    EvictRestoresBounds(claimed.cache);
    NotAVictim(claimed.cache, key);
    EvictionKeepsInv(claimed);
  }

  lemma NotAVictim<K, V>(c: Cache<K, V>, key: K)
    requires key in Left(c)
    ensures key !in Victims(c)
  {
    assert key in Victims(c) ==> key in Elements(Victims(c));
  }

  lemma InsertKeepsInv<K, V>(w: World<K, V>, key: K, value: V)
    requires Inv(w)
    ensures Inv(DoInsert(w, key, value)) && DoInsert(w, key, value).cache == Insert(w.cache, key, value)
  {
    hide Evict, Core, Bounded;
    PutKeepsCore(w, key, value);
    EvictionKeepsInv(Put(w, key, value));
  }

  lemma FulfillKeepsInv<K, V>(w: World<K, V>, i: nat, value: V)
    requires Inv(w) && i in w.held
    ensures Inv(DoFulfill(w, i, value)) && DoFulfill(w, i, value).cache == Fulfill(w.cache, w.held[i], value)
  {
    hide Evict, Bounded, Core, Stored;
    if Matches(w.cache, w.held[i]) {
      StoreKeepsCore(w, i, value);
      EvictionKeepsInv(Stored(w, i, value));
    } else {
      RefusalKeepsCore(w, i);
    }
  }

  lemma StoreKeepsCore<K, V>(w: World<K, V>, i: nat, value: V)
    requires Inv(w) && i in w.held && Matches(w.cache, w.held[i])
    ensures Core(Stored(w, i, value)) && Evicted(Stored(w, i, value)).cache == Fulfill(w.cache, w.held[i], value)
  {
    hide Evict, Bounded;
    AcceptedIffFresh(w, i);
    ResolveKeepsCore(w, i, Stored(w, i, value));
  }

  lemma RefusalKeepsCore<K, V>(w: World<K, V>, i: nat)
    requires Inv(w) && i in w.held && !Matches(w.cache, w.held[i])
    ensures Core(w.(held := w.held - {i}))
  {
    hide Evict, Bounded;
    AcceptedIffFresh(w, i);
    QuietKeepsCore(w, w.(held := w.held - {i}));
  }

  lemma AbandonKeepsInv<K, V>(w: World<K, V>, i: nat)
    requires Inv(w) && i in w.held
    ensures Inv(DoAbandon(w, i)) && DoAbandon(w, i).cache == Abandon(w.cache, w.held[i])
  {
    AcceptedIffFresh(w, i);
    FewerEntries(w.cache.entries, {w.held[i].key});
    if Matches(w.cache, w.held[i]) {
      ResolveKeepsCore(w, i, DoAbandon(w, i));
    } else {
      QuietKeepsCore(w, DoAbandon(w, i));
    }
  }

  lemma InvalidateKeepsInv<K, V>(w: World<K, V>, key: K)
    requires Inv(w)
    ensures Inv(DoInvalidate(w, key))
  {
    DropKeepsCore(w, key);
    FewerEntries(w.cache.entries, {key});
  }

  lemma ClearKeepsInv<K, V>(w: World<K, V>)
    requires Inv(w)
    ensures Inv(DoClear(w))
  {
    ClearKeepsCore(w);
    assert ReadyKeys(DoClear(w).cache.entries) == {};
  }

  // ---- Runs ----

  datatype Command<K, V> =
    | CmdRead(key: K)
    | CmdInsert(key: K, value: V)
    | CmdFulfill(token: nat, value: V)
    | CmdAbandon(token: nat)
    | CmdInvalidate(key: K)
    | CmdClear

  /** One call; a token that nobody holds cannot be used. */
  ghost function Step<K, V>(w: World<K, V>, cmd: Command<K, V>): (w': World<K, V>)
    requires Inv(w)
    ensures Inv(w')
  {
    hide Inv;
    match cmd
    case CmdRead(key) => ReadKeepsInv(w, key); DoRead(w, key)
    case CmdInsert(key, value) => InsertKeepsInv(w, key, value); DoInsert(w, key, value)
    case CmdFulfill(i, value) => if i in w.held then FulfillKeepsInv(w, i, value); DoFulfill(w, i, value) else w
    case CmdAbandon(i) => if i in w.held then AbandonKeepsInv(w, i); DoAbandon(w, i) else w
    case CmdInvalidate(key) => InvalidateKeepsInv(w, key); DoInvalidate(w, key)
    case CmdClear => ClearKeepsInv(w); DoClear(w)
  }

  ghost function Run<K, V>(w: World<K, V>, cmds: seq<Command<K, V>>): (w': World<K, V>)
    requires Inv(w)
    ensures Inv(w')
    decreases |cmds|
  {
    if cmds == [] then w else Run(Step(w, cmds[0]), cmds[1..])
  }

  ghost function NewWorld<K, V>(capacity: nat): World<K, V> {
    World(NewCache(capacity), [], map[])
  }

  lemma StepKeepsCapacity<K, V>(w: World<K, V>, cmd: Command<K, V>)
    requires Inv(w)
    ensures Step(w, cmd).cache.capacity == w.cache.capacity
  {
    hide EvictReady, LoadingVictims, Inv;
  }

  lemma {:induction false} RunKeepsCapacity<K, V>(w: World<K, V>, cmds: seq<Command<K, V>>)
    requires Inv(w)
    ensures Run(w, cmds).cache.capacity == w.cache.capacity
    decreases |cmds|
  {
    hide Inv, Step;
    if cmds != [] {
      StepKeepsCapacity(w, cmds[0]);
      RunKeepsCapacity(Step(w, cmds[0]), cmds[1..]);
    }
  }

  /** After any run of calls: the bounds hold, a held token is accepted exactly when nothing
      superseded it, and a key is pending exactly while its one acceptable token is held. */
  lemma AfterAnyRun<K, V>(capacity: nat, cmds: seq<Command<K, V>>, key: K, i: nat)
    ensures Inv(NewWorld<K, V>(capacity))
    ensures var w := Run(NewWorld(capacity), cmds);
            var room := if capacity == 0 then 1 else capacity;
            && |ReadyKeys(w.cache.entries)| <= room && |w.cache.entries| <= room + 64
            && StampsDistinct(w.cache.entries)
            && (i in w.held ==> i < |w.log| && w.log[i] == Issued(w.held[i].key)
                                && (Matches(w.cache, w.held[i]) <==> !Superseded(w.log, i)))
            && (Read(w.cache, key).1 == Pending <==>
                  exists j :: j in w.held && w.held[j].key == key && Matches(w.cache, w.held[j]))
  {
    hide EvictReady, LoadingVictims;
    NewWorldIsSane(NewWorld<K, V>(capacity), capacity);
    RunKeepsCapacity(NewWorld<K, V>(capacity), cmds);
    var w := Run(NewWorld(capacity), cmds);
    if i in w.held {
      AcceptedIffFresh(w, i);
    }
    PendingIffOwned(w, key);
    forall j | j in w.held
      ensures Matches(w.cache, w.held[j]) <==> Fresh(w, j)
    {
      AcceptedIffFresh(w, j);
    }
    FreshIsHeld(w);
    if j :| Fresh(w, j) && w.held[j].key == key {
      assert j in w.held;
    }
  }

  lemma NewWorldIsSane<K, V>(w: World<K, V>, capacity: nat)
    requires w == World(NewCache(capacity), [], map[])
    ensures Inv(w)
  {
    assert ReadyKeys(w.cache.entries) == {};
  }

  // ---- What a hit shows ----

  /** The values stored and not dropped since, after a call. */
  ghost function Noted<K, V>(w: World<K, V>, latest: map<K, V>, cmd: Command<K, V>): map<K, V> {
    match cmd
    case CmdInsert(key, value) => latest[key := value]
    case CmdFulfill(i, value) =>
      if i in w.held && Matches(w.cache, w.held[i]) then latest[w.held[i].key := value] else latest
    case CmdInvalidate(key) => latest - {key}
    case CmdClear => map[]
    case _ => latest
  }

  ghost function Latest<K, V>(w: World<K, V>, latest: map<K, V>, cmds: seq<Command<K, V>>): map<K, V>
    requires Inv(w)
    decreases |cmds|
  {
    if cmds == [] then latest else Latest(Step(w, cmds[0]), Noted(w, latest, cmds[0]), cmds[1..])
  }

  ghost predicate Shows<K, V>(c: Cache<K, V>, latest: map<K, V>) {
    forall k :: k in ReadyKeys(c.entries) ==> k in latest && latest[k] == c.entries[k].slot.value
  }

  lemma EvictionShowsNoMore<K, V>(c: Cache<K, V>, latest: map<K, V>)
    requires Sane(c) && Shows(c, latest)
    ensures Shows(Evict(c), latest)
  {
    hide EvictReady, LoadingVictims, Elements;
    LeftIsBounded(c);
    EvictRestoresBounds(c);
  }

  lemma ReadShows<K, V>(w: World<K, V>, latest: map<K, V>, key: K)
    requires Inv(w) && Shows(w.cache, latest)
    ensures Shows(DoRead(w, key).cache, latest)
  {
    hide Evict, HeldSane, FreshOwns, SupersededIsOld, LoadingIsOwned, OneFreshPerKey;
    if key !in w.cache.entries {
      EvictionShowsNoMore(Claimed(w, key).cache, latest);
    }
  }

  lemma InsertShows<K, V>(w: World<K, V>, latest: map<K, V>, key: K, value: V)
    requires Inv(w) && Shows(w.cache, latest)
    ensures Shows(DoInsert(w, key, value).cache, latest[key := value])
  {
    hide Evict, HeldSane, FreshOwns, SupersededIsOld, LoadingIsOwned, OneFreshPerKey;
    EvictionShowsNoMore(Put(w, key, value).cache, latest[key := value]);
  }

  lemma FulfillShows<K, V>(w: World<K, V>, latest: map<K, V>, i: nat, value: V)
    requires Inv(w) && Shows(w.cache, latest) && i in w.held
    ensures Shows(DoFulfill(w, i, value).cache, Noted(w, latest, CmdFulfill(i, value)))
  {
    hide Evict, HeldSane, FreshOwns, SupersededIsOld, LoadingIsOwned, OneFreshPerKey;
    if Matches(w.cache, w.held[i]) {
      EvictionShowsNoMore(Stored(w, i, value).cache, latest[w.held[i].key := value]);
    }
  }

  lemma StepShows<K, V>(w: World<K, V>, latest: map<K, V>, cmd: Command<K, V>)
    requires Inv(w) && Shows(w.cache, latest)
    ensures Shows(Step(w, cmd).cache, Noted(w, latest, cmd))
  {
    hide Inv, DoRead, DoInsert, DoFulfill, Matches;
    match cmd
    case CmdRead(key) => ReadShows(w, latest, key);
    case CmdInsert(key, value) => InsertShows(w, latest, key, value);
    case CmdFulfill(i, value) =>
      if i in w.held {
        FulfillShows(w, latest, i, value);
      }
    case CmdAbandon(i) =>
    case CmdInvalidate(key) =>
    case CmdClear =>
  }

  lemma {:induction false} RunShows<K, V>(w: World<K, V>, latest: map<K, V>, cmds: seq<Command<K, V>>)
    requires Inv(w) && Shows(w.cache, latest)
    ensures Shows(Run(w, cmds).cache, Latest(w, latest, cmds))
    decreases |cmds|
  {
    hide Inv, Step, Shows;
    if cmds != [] {
      StepShows(w, latest, cmds[0]);
      RunShows(Step(w, cmds[0]), Noted(w, latest, cmds[0]), cmds[1..]);
    }
  }

  /** After any run of calls a hit shows the value stored last, and never one from before the key was
      last dropped. */
  lemma HitsAreLatest<K, V>(capacity: nat, cmds: seq<Command<K, V>>, key: K, value: V)
    ensures Inv(NewWorld<K, V>(capacity))
    ensures var latest := Latest(NewWorld(capacity), map[], cmds);
            Read(Run(NewWorld(capacity), cmds).cache, key).1 == Hit(value) ==> key in latest && latest[key] == value
  {
    hide Inv, Step, Evict;
    var w := NewWorld<K, V>(capacity);
    NewWorldIsSane(w, capacity);
    assert ReadyKeys(w.cache.entries) == {};
    RunShows(w, map[], cmds);
    if Read(Run(w, cmds).cache, key).1 == Hit(value) {
      assert key in ReadyKeys(Run(w, cmds).cache.entries);
    }
  }
}
