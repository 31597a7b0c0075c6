/** A bounded cache of fetched values in which at most one caller owns each fetch
    (src/query.rs). First the operations on a cache value, then the class that performs them in
    place. */
module QueryCaches {

  datatype FetchToken<K> = FetchToken(key: K, generation: nat)

  datatype Query<K, V> = Hit(value: V) | Pending | Missing(token: FetchToken<K>)

  datatype Slot<V> = Loading | Ready(value: V)

  datatype Cached<V> = Cached(slot: Slot<V>, generation: nat, lastUsed: nat)

  datatype Cache<K, V> = Cache(entries: map<K, Cached<V>>, capacity: nat, clock: nat, generation: nat)

  const MAX_INFLIGHT_OVERFLOW: nat := 64

  // ---- Eviction ----

  function ReadyKeys<K, V>(entries: map<K, Cached<V>>): set<K> {
    set k | k in entries && entries[k].slot.Ready?
  }

  function LoadingKeys<K, V>(entries: map<K, Cached<V>>): set<K> {
    set k | k in entries && entries[k].slot.Loading?
  }

  /** No two entries were last used at the same time. */
  ghost predicate StampsDistinct<K, V>(entries: map<K, Cached<V>>) {
    forall j, k :: j in entries && k in entries && entries[j].lastUsed == entries[k].lastUsed ==> j == k
  }

  predicate IsOldest<K, V>(entries: map<K, Cached<V>>, keys: set<K>, k: K) {
    k in keys && k in entries && forall j | j in keys && j in entries :: entries[k].lastUsed <= entries[j].lastUsed
  }

  lemma {:induction false} OldestExists<K, V>(entries: map<K, Cached<V>>, keys: set<K>)
    requires keys != {} && keys <= entries.Keys
    ensures exists k :: k in entries && IsOldest(entries, keys, k)
    decreases |keys|
  {
    var k :| k in keys;
    if keys - {k} != {} {
      OldestExists(entries, keys - {k});
      var j :| j in entries && IsOldest(entries, keys - {k}, j);
      var oldest := if entries[k].lastUsed < entries[j].lastUsed then k else j;
      forall i | i in keys && i in entries
        ensures entries[oldest].lastUsed <= entries[i].lastUsed
      {
        assert i == k || i in keys - {k};
      }
      assert IsOldest(entries, keys, oldest);
    } else {
      assert keys == {k};
      assert IsOldest(entries, keys, k);
    }
  }

  ghost function Oldest<K, V>(entries: map<K, Cached<V>>, keys: set<K>): (k: K)
    requires keys != {} && keys <= entries.Keys
    ensures IsOldest(entries, keys, k)
  {
    OldestExists(entries, keys);
    var k :| IsOldest(entries, keys, k);
    k
  }

  /** Resolved values beyond the capacity go, least recently used first. */
  ghost function EvictReady<K, V>(entries: map<K, Cached<V>>, capacity: nat): (kept: map<K, Cached<V>>)
    decreases |entries|
  {
    if |ReadyKeys(entries)| > capacity then
      EvictReady(entries - {Oldest(entries, ReadyKeys(entries))}, capacity)
    else entries
  }

  /** Fetches in flight beyond the overflow go too; these are the victims, in order. */
  ghost function LoadingVictims<K, V>(entries: map<K, Cached<V>>, limit: nat): (victims: seq<K>)
    decreases |entries|
  {
    if |entries| > limit && LoadingKeys(entries) != {} then
      var victim := Oldest(entries, LoadingKeys(entries));
      [victim] + LoadingVictims(entries - {victim}, limit)
    else []
  }

  function Elements<T>(s: seq<T>): set<T> {
    set x | x in s
  }

  ghost function Victims<K, V>(c: Cache<K, V>): seq<K> {
    LoadingVictims(EvictReady(c.entries, c.capacity), c.capacity + MAX_INFLIGHT_OVERFLOW)
  }

  ghost function Evict<K, V>(c: Cache<K, V>): Cache<K, V> {
    c.(entries := EvictReady(c.entries, c.capacity) - Elements(Victims(c)),
       generation := c.generation + |Victims(c)|)
  }

  // ---- Operations ----

  /** Holds at least one value. */
  function NewCache<K, V>(capacity: nat): Cache<K, V> {
    Cache(map[], if capacity == 0 then 1 else capacity, 0, 0)
  }

  ghost function Read<K, V>(c: Cache<K, V>, key: K): (Cache<K, V>, Query<K, V>) {
    var clock := c.clock + 1;
    if key in c.entries then
      (c.(clock := clock, entries := c.entries[key := c.entries[key].(lastUsed := clock)]),
       match c.entries[key].slot case Ready(value) => Hit(value) case Loading => Pending)
    else
      (Evict(c.(clock := clock, entries := c.entries[key := Cached(Loading, c.generation, clock)])),
       Missing(FetchToken(key, c.generation)))
  }

  ghost function Insert<K, V>(c: Cache<K, V>, key: K, value: V): Cache<K, V> {
    Evict(c.(generation := c.generation + 1, clock := c.clock + 1,
             entries := c.entries[key := Cached(Ready(value), c.generation + 1, c.clock + 1)]))
  }

  predicate Matches<K, V>(c: Cache<K, V>, token: FetchToken<K>) {
    token.key in c.entries && c.entries[token.key].generation == token.generation
  }

  ghost function Fulfill<K, V>(c: Cache<K, V>, token: FetchToken<K>, value: V): Cache<K, V> {
    if Matches(c, token) then
      Evict(c.(clock := c.clock + 1,
               entries := c.entries[token.key := Cached(Ready(value), token.generation, c.clock + 1)]))
    else c
  }

  function Abandon<K, V>(c: Cache<K, V>, token: FetchToken<K>): Cache<K, V> {
    if Matches(c, token) then c.(entries := c.entries - {token.key}) else c
  }

  function Invalidate<K, V>(c: Cache<K, V>, key: K): Cache<K, V> {
    c.(generation := c.generation + 1, entries := c.entries - {key})
  }

  function Clear<K, V>(c: Cache<K, V>): Cache<K, V> {
    c.(generation := c.generation + 1, entries := map[])
  }

  // ---- What eviction does ----

  lemma RemoveReady<K, V>(entries: map<K, Cached<V>>, k: K)
    requires k in ReadyKeys(entries)
    ensures var rest := entries - {k};
            && ReadyKeys(rest) == ReadyKeys(entries) - {k} && LoadingKeys(rest) == LoadingKeys(entries)
            && |ReadyKeys(rest)| == |ReadyKeys(entries)| - 1
  {}

  lemma RemoveLoading<K, V>(entries: map<K, Cached<V>>, k: K)
    requires k in LoadingKeys(entries)
    ensures var rest := entries - {k};
            && LoadingKeys(rest) == LoadingKeys(entries) - {k} && ReadyKeys(rest) == ReadyKeys(entries)
            && |rest| == |entries| - 1
  {
    assert (entries - {k}).Keys == entries.Keys - {k};
  }

  /** `kept` holds the entries of `entries` under some keys, and the others that `among` has were all
      used before those of `among` that stay. */
  ghost predicate KeepsNewest<K, V>(entries: map<K, Cached<V>>, kept: map<K, Cached<V>>, among: set<K>) {
    && kept.Keys <= entries.Keys && entries.Keys - kept.Keys <= among
    && (forall k :: k in kept ==> kept[k] == entries[k])
    && (forall j, k :: j in entries && j !in kept && k in kept && k in among ==>
          entries[j].lastUsed < entries[k].lastUsed)
  }

  lemma KeepAfterOldest<K, V>(entries: map<K, Cached<V>>, keys: set<K>, victim: K, kept: map<K, Cached<V>>)
    requires StampsDistinct(entries) && keys <= entries.Keys && IsOldest(entries, keys, victim)
    requires KeepsNewest(entries - {victim}, kept, keys - {victim})
    ensures KeepsNewest(entries, kept, keys)
  {
    assert forall k :: k in kept ==> k in entries - {victim};
    assert forall j :: j in entries && j !in kept && j != victim ==> j in (entries - {victim}).Keys - kept.Keys;
    forall j, k | j in entries && j !in kept && k in kept && k in keys
      ensures entries[j].lastUsed < entries[k].lastUsed
    {
      assert k in entries - {victim} && entries[k].lastUsed != entries[victim].lastUsed;
      if j != victim {
        assert j in entries - {victim};
      }
    }
  }

  /** Eviction of resolved values keeps every fetch in flight and the most recently used values,
      as many as fit. */
  lemma {:induction false} EvictReadyKeepsNewest<K, V>(entries: map<K, Cached<V>>, capacity: nat)
    requires StampsDistinct(entries)
    ensures var kept := EvictReady(entries, capacity);
            && KeepsNewest(entries, kept, ReadyKeys(entries))
            && LoadingKeys(kept) == LoadingKeys(entries)
            && |ReadyKeys(kept)| == (if |ReadyKeys(entries)| < capacity then |ReadyKeys(entries)| else capacity)
    decreases |entries|
  {
    hide KeepsNewest, IsOldest, LoadingKeys;
    if |ReadyKeys(entries)| > capacity {
      var victim := Oldest(entries, ReadyKeys(entries));
      assert IsOldest(entries, ReadyKeys(entries), victim) && victim in ReadyKeys(entries) by {
        OldestIsAmong(entries, ReadyKeys(entries));
      }
      RemoveReady(entries, victim);
      EvictReadyKeepsNewest(entries - {victim}, capacity);
      KeepAfterOldest(entries, ReadyKeys(entries), victim, EvictReady(entries - {victim}, capacity));
    } else {
      NothingEvicted(entries, ReadyKeys(entries));
    }
  }

  lemma OldestIsAmong<K, V>(entries: map<K, Cached<V>>, keys: set<K>)
    requires keys != {} && keys <= entries.Keys
    ensures Oldest(entries, keys) in keys
  {}

  /** The in-flight victims are distinct fetches, older than those that stay, and just enough. */
  lemma {:induction false} LoadingVictimsAreOldest<K, V>(entries: map<K, Cached<V>>, limit: nat)
    requires StampsDistinct(entries) && |ReadyKeys(entries)| <= limit
    ensures var victims := LoadingVictims(entries, limit);
            var kept := entries - Elements(victims);
            && KeepsNewest(entries, kept, LoadingKeys(entries))
            && Elements(victims) <= LoadingKeys(entries)
            && |kept| == (if |entries| < limit then |entries| else limit)
            && ReadyKeys(kept) == ReadyKeys(entries)
    decreases |entries|
  {
    hide KeepsNewest, IsOldest, StampsDistinct, Elements, ReadyKeys;
    if |entries| > limit {
      SomethingIsLoading(entries, limit);
      OldestIsAmong(entries, LoadingKeys(entries));
      var victim := Oldest(entries, LoadingKeys(entries));
      var rest := entries - {victim};
      RemoveLoading(entries, victim);
      StampsOfRest(entries, {victim});
      LoadingVictimsAreOldest(rest, limit);
      var others := LoadingVictims(rest, limit);
      RemoveInTurn(entries, victim, others);
      KeepAfterOldest(entries, LoadingKeys(entries), victim, rest - Elements(others));
    } else {
      NothingEvicted(entries, LoadingKeys(entries));
    }
  }

  lemma NothingEvicted<K, V>(entries: map<K, Cached<V>>, among: set<K>)
    ensures entries - Elements([]) == entries && Elements([]) <= among && KeepsNewest(entries, entries, among)
  {}

  lemma StampsOfRest<K, V>(entries: map<K, Cached<V>>, keys: set<K>)
    requires StampsDistinct(entries)
    ensures StampsDistinct(entries - keys)
  {}

  lemma SomethingIsLoading<K, V>(entries: map<K, Cached<V>>, limit: nat)
    requires |ReadyKeys(entries)| <= limit < |entries|
    ensures LoadingKeys(entries) != {}
  {
    assert |entries| == |entries.Keys|;
    assert entries.Keys == ReadyKeys(entries) + LoadingKeys(entries);
    assert LoadingKeys(entries) == {} ==> entries.Keys == ReadyKeys(entries);
  }

  lemma RemoveInTurn<K, V>(entries: map<K, Cached<V>>, first: K, others: seq<K>)
    ensures entries - {first} - Elements(others) == entries - Elements([first] + others)
    ensures Elements([first] + others) == {first} + Elements(others)
  {}

  /** Holds of the entries at any time, in or out of an operation. */
  ghost predicate Sane<K, V>(c: Cache<K, V>) {
    && 1 <= c.capacity && StampsDistinct(c.entries)
    && forall k :: k in c.entries ==> c.entries[k].generation <= c.generation && c.entries[k].lastUsed <= c.clock
  }

  /** Holds between operations: no more values than fit, and not many more fetches. */
  ghost predicate Bounded<K, V>(c: Cache<K, V>) {
    && Sane(c)
    && |ReadyKeys(c.entries)| <= c.capacity
    && |c.entries| <= c.capacity + MAX_INFLIGHT_OVERFLOW
  }

  ghost predicate IsNewest<K, V>(entries: map<K, Cached<V>>, k: K) {
    k in entries && forall j :: j in entries && j != k ==> entries[j].lastUsed < entries[k].lastUsed
  }

  /** What is left of the entries after eviction. */
  ghost function Left<K, V>(c: Cache<K, V>): map<K, Cached<V>> {
    EvictReady(c.entries, c.capacity) - Elements(Victims(c))
  }

  lemma LeftIsBounded<K, V>(c: Cache<K, V>)
    requires StampsDistinct(c.entries) && 1 <= c.capacity
    ensures |ReadyKeys(Left(c))| <= c.capacity && |Left(c)| <= c.capacity + MAX_INFLIGHT_OVERFLOW
    ensures StampsDistinct(Left(c)) && Elements(Victims(c)) <= LoadingKeys(c.entries)
    ensures LoadingKeys(Left(c)) == LoadingKeys(c.entries) - Elements(Victims(c))
    ensures forall k :: k in Left(c) ==> k in c.entries && Left(c)[k] == c.entries[k]
  {
    hide EvictReady, LoadingVictims, KeepsNewest, ReadyKeys, LoadingKeys, StampsDistinct, Elements;
    var kept, limit := EvictReady(c.entries, c.capacity), c.capacity + MAX_INFLIGHT_OVERFLOW;
    EvictReadyKeepsNewest(c.entries, c.capacity);
    KeptEntries(c.entries, kept, ReadyKeys(c.entries));
    LoadingVictimsAreOldest(kept, limit);
    KeptEntries(kept, Left(c), LoadingKeys(kept));
    LoadingLeft(kept, Elements(Victims(c)));
  }

  /** Eviction restores both bounds. */
  lemma EvictRestoresBounds<K, V>(c: Cache<K, V>)
    requires Sane(c)
    ensures Bounded(Evict(c)) && Evict(c).entries == Left(c)
  {
    hide EvictReady, LoadingVictims, ReadyKeys, LoadingKeys, StampsDistinct, Elements;
    LeftIsBounded(c);
  }

  lemma LoadingLeft<K, V>(entries: map<K, Cached<V>>, keys: set<K>)
    ensures LoadingKeys(entries - keys) == LoadingKeys(entries) - keys
  {}

  lemma NewestStays<K, V>(c: Cache<K, V>, k: K)
    requires Sane(c) && IsNewest(c.entries, k)
    ensures k in Evict(c).entries
  {
    hide KeepsNewest, ReadyKeys, LoadingKeys, StampsDistinct, Elements, IsNewest, EvictReady, LoadingVictims, IsOldest;
    var kept, limit := EvictReady(c.entries, c.capacity), c.capacity + MAX_INFLIGHT_OVERFLOW;
    EvictReadyKeepsNewest(c.entries, c.capacity);
    KeptEntries(c.entries, kept, ReadyKeys(c.entries));
    LoadingVictimsAreOldest(kept, limit);
    NewestReadyStays(c.entries, kept, c.capacity, k);
    NewestLoadingStays(kept, kept - Elements(Victims(c)), limit, c.capacity, k);
  }

  lemma KeptEntries<K, V>(entries: map<K, Cached<V>>, kept: map<K, Cached<V>>, among: set<K>)
    requires KeepsNewest(entries, kept, among)
    ensures forall k :: k in kept ==> k in entries && kept[k] == entries[k]
    ensures StampsDistinct(entries) ==> StampsDistinct(kept)
  {}

  lemma DroppedIsOlder<K, V>(entries: map<K, Cached<V>>, kept: map<K, Cached<V>>, among: set<K>, j: K, k: K)
    requires KeepsNewest(entries, kept, among) && j in entries && j !in kept && k in kept && k in among
    ensures entries[j].lastUsed < entries[k].lastUsed
  {}

  lemma NewestReadyStays<K, V>(entries: map<K, Cached<V>>, kept: map<K, Cached<V>>, capacity: nat, k: K)
    requires KeepsNewest(entries, kept, ReadyKeys(entries)) && IsNewest(entries, k) && 1 <= capacity
    requires |ReadyKeys(kept)| == (if |ReadyKeys(entries)| < capacity then |ReadyKeys(entries)| else capacity)
    ensures k in kept && IsNewest(kept, k)
  {
    if k !in kept {
      assert k in entries.Keys - kept.Keys;
      assert ReadyKeys(kept) != {};
      var j :| j in ReadyKeys(kept);
      DroppedIsOlder(entries, kept, ReadyKeys(entries), k, j);
    }
  }

  lemma NewestLoadingStays<K, V>(entries: map<K, Cached<V>>, kept: map<K, Cached<V>>, limit: nat, capacity: nat, k: K)
    requires KeepsNewest(entries, kept, LoadingKeys(entries)) && IsNewest(entries, k) && capacity < limit
    requires |kept| == (if |entries| < limit then |entries| else limit)
    requires ReadyKeys(kept) == ReadyKeys(entries) && |ReadyKeys(entries)| <= capacity
    ensures k in kept
  {
    if k !in kept {
      assert k in entries.Keys - kept.Keys;
      if |entries| < limit {
        assert kept.Keys < entries.Keys;
        Smaller(kept.Keys, entries.Keys);
      } else {
        SomethingIsLoading(kept, capacity);
        var j :| j in LoadingKeys(kept);
        DroppedIsOlder(entries, kept, LoadingKeys(entries), k, j);
      }
    }
  }

  lemma {:induction false} Smaller<T>(a: set<T>, b: set<T>)
    requires a < b
    ensures |a| < |b|
  {
    assert |b| == |a| + |b - a| by { assert b == a + (b - a); }
    var x :| x in b - a;
  }

  // ---- What operations promise the next read ----

  /** Reading an entry makes it the one used last, so the last to be evicted. */
  lemma ReadMakesNewest<K, V>(c: Cache<K, V>, key: K)
    requires Bounded(c) && key in c.entries
    ensures IsNewest(Read(c, key).0.entries, key) && key in Evict(Read(c, key).0).entries
  {
    hide Evict;
    TouchKeepsBounds(c, key);
    NewestStays(Read(c, key).0, key);
  }

  /** The newest entry of a cache reads the same after eviction. */
  lemma NewestReadsTheSame<K, V>(c: Cache<K, V>, key: K)
    requires Sane(c) && IsNewest(c.entries, key) && key in c.entries
    ensures key in Evict(c).entries && Evict(c).entries[key] == c.entries[key]
  {
    hide EvictReady, LoadingVictims, Elements, Sane, IsNewest;
    NewestStays(c, key);
    SaneStamps(c);
    LeftIsBounded(c);
  }

  lemma SaneStamps<K, V>(c: Cache<K, V>)
    requires Sane(c)
    ensures StampsDistinct(c.entries) && 1 <= c.capacity
  {}

  /** An entry stored at the next tick of the clock is the newest. */
  lemma StoredIsNewest<K, V>(c: Cache<K, V>, key: K, slot: Slot<V>, generation: nat)
    requires Sane(c) && generation <= c.generation + 1
    ensures var stored := c.(generation := c.generation + 1, clock := c.clock + 1,
                             entries := c.entries[key := Cached(slot, generation, c.clock + 1)]);
            Sane(stored) && IsNewest(stored.entries, key)
  {}

  /** A value that is stored is there for the next read, whatever storing it evicted. */
  lemma InsertThenRead<K, V>(c: Cache<K, V>, key: K, value: V)
    requires Bounded(c)
    ensures Read(Insert(c, key, value), key).1 == Hit(value)
  {
    hide Evict, Sane, IsNewest, ReadyKeys;
    StoredIsNewest(c, key, Ready(value), c.generation + 1);
    NewestReadsTheSame(c.(generation := c.generation + 1, clock := c.clock + 1,
                          entries := c.entries[key := Cached(Ready(value), c.generation + 1, c.clock + 1)]), key);
  }

  lemma FulfillThenRead<K, V>(c: Cache<K, V>, token: FetchToken<K>, value: V)
    requires Bounded(c) && Matches(c, token)
    ensures Read(Fulfill(c, token, value), token.key).1 == Hit(value)
  {
    hide Evict, ReadyKeys;
    var stored := c.(clock := c.clock + 1,
                     entries := c.entries[token.key := Cached(Ready(value), token.generation, c.clock + 1)]);
    NewestReadsTheSame(stored, token.key);
  }

  // ---- The cache as an object ----

  class QueryCache<K(==), V> {
    var entries: map<K, Cached<V>>
    const capacity: nat
    var clock: nat
    var generation: nat

    ghost function View(): Cache<K, V>
      reads this
    {
      Cache(entries, capacity, clock, generation)
    }

    constructor (limit: nat)
      ensures View() == NewCache(limit) && Bounded(View())
    {
      entries := map[];
      capacity := if limit < 1 then 1 else limit;
      clock, generation := 0, 0;
      new;
      assert ReadyKeys(entries) == {};
    }

    method ReadKey(key: K) returns (query: Query<K, V>)
      requires Bounded(View())
      modifies this
      ensures (View(), query) == Read(old(View()), key) && Bounded(View())
    {
      hide EvictReady, LoadingVictims, Evict, Bounded;
      clock := clock + 1;
      if key in entries {
        TouchKeepsBounds(old(View()), key);
        entries := entries[key := entries[key].(lastUsed := clock)];
        match entries[key].slot {
          case Ready(value) => return Hit(value);
          case Loading => return Pending;
        }
      }
      var token := FetchToken(key, generation);
      ClaimIsSane(old(View()), key);
      entries := entries[key := Cached(Loading, generation, clock)];
      EvictOverCapacity();
      return Missing(token);
    }

    method InsertValue(key: K, value: V)
      requires Bounded(View())
      modifies this
      ensures View() == Insert(old(View()), key, value) && Bounded(View())
    {
      hide EvictReady, LoadingVictims, Evict;
      generation := generation + 1;
      clock := clock + 1;
      entries := entries[key := Cached(Ready(value), generation, clock)];
      EvictOverCapacity();
    }

    method FulfillToken(token: FetchToken<K>, value: V) returns (accepted: bool)
      requires Bounded(View())
      modifies this
      ensures View() == Fulfill(old(View()), token, value) && Bounded(View())
      ensures accepted == Matches(old(View()), token)
    {
      hide EvictReady, LoadingVictims, Evict, Bounded, StampsDistinct;
      if token.key !in entries {
        return false;
      }
      if entries[token.key].generation != token.generation {
        return false;
      }
      StoreIsSane(old(View()), token, value);
      clock := clock + 1;
      entries := entries[token.key := entries[token.key].(slot := Ready(value))];
      entries := entries[token.key := entries[token.key].(lastUsed := clock)];
      assert entries == old(entries)[token.key := Cached(Ready(value), token.generation, clock)];
      EvictOverCapacity();
      return true;
    }

    method AbandonToken(token: FetchToken<K>)
      requires Bounded(View())
      modifies this
      ensures View() == Abandon(old(View()), token) && Bounded(View())
    {
      if token.key in entries && entries[token.key].generation == token.generation {
        FewerEntries(entries, {token.key});
        entries := entries - {token.key};
      }
    }

    method InvalidateKey(key: K)
      requires Bounded(View())
      modifies this
      ensures View() == Invalidate(old(View()), key) && Bounded(View())
    {
      generation := generation + 1;
      FewerEntries(entries, {key});
      entries := entries - {key};
    }

    method ClearAll()
      requires Bounded(View())
      modifies this
      ensures View() == Clear(old(View())) && Bounded(View())
    {
      generation := generation + 1;
      entries := map[];
      assert ReadyKeys(entries) == {};
    }

    method EvictOverCapacity()
      requires Sane(View())
      modifies this`entries, this`generation
      ensures View() == Evict(old(View())) && Bounded(View())
    {
      hide EvictReady, LoadingVictims, Elements, Bounded, ReadyKeys;
      EvictRestoresBounds(View());
      EvictValues();
      EvictFetches();
    }

    method EvictValues()
      requires Sane(View())
      modifies this`entries
      ensures entries == EvictReady(old(entries), capacity) && StampsDistinct(entries)
    {
      while |ReadyKeys(entries)| > capacity
        invariant StampsDistinct(entries)
        invariant EvictReady(entries, capacity) == EvictReady(old(entries), capacity)
        decreases |ReadyKeys(entries)|
      {
        OldestExists(entries, ReadyKeys(entries));
        var victim :| victim in entries && IsOldest(entries, ReadyKeys(entries), victim);
        OldestIsUnique(entries, ReadyKeys(entries), victim);
        RemoveReady(entries, victim);
        entries := entries - {victim};
      }
    }

    method EvictFetches()
      requires StampsDistinct(entries)
      modifies this`entries, this`generation
      ensures var victims := LoadingVictims(old(entries), capacity + MAX_INFLIGHT_OVERFLOW);
              entries == old(entries) - Elements(victims) && generation == old(generation) + |victims|
    {
      hide LoadingVictims, IsOldest, StampsDistinct, Elements;
      var limit := capacity + MAX_INFLIGHT_OVERFLOW;
      ghost var done: seq<K> := [];
      NothingEvicted(entries, {});
      while |entries| > limit
        invariant StampsDistinct(entries)
        invariant entries == old(entries) - Elements(done) && generation == old(generation) + |done|
        invariant LoadingVictims(old(entries), limit) == done + LoadingVictims(entries, limit)
        decreases |entries|
      {
        if LoadingKeys(entries) == {} {
          NoVictims(entries, limit);
          assert done + [] == done;
          return;
        }
        OldestExists(entries, LoadingKeys(entries));
        var victim :| victim in entries && IsOldest(entries, LoadingKeys(entries), victim);
        OldestIsUnique(entries, LoadingKeys(entries), victim);
        NextVictim(entries, limit, victim);
        RemoveLoading(entries, victim);
        StampsOfRest(entries, {victim});
        generation := generation + 1;
        RemoveLast(old(entries), done, victim);
        entries := entries - {victim};
        done := done + [victim];
      }
      NoVictims(entries, limit);
      assert done + [] == done;
    }
  }

  lemma TouchKeepsBounds<K, V>(c: Cache<K, V>, key: K)
    requires Bounded(c) && key in c.entries
    ensures Bounded(Read(c, key).0)
  {
    hide Evict;
    var entries := Read(c, key).0.entries;
    assert ReadyKeys(entries) == ReadyKeys(c.entries) && entries.Keys == c.entries.Keys;
  }

  lemma ClaimIsSane<K, V>(c: Cache<K, V>, key: K)
    requires Bounded(c) && key !in c.entries
    ensures Sane(c.(clock := c.clock + 1, entries := c.entries[key := Cached(Loading, c.generation, c.clock + 1)]))
  {}

  lemma StoreIsSane<K, V>(c: Cache<K, V>, token: FetchToken<K>, value: V)
    requires Bounded(c) && Matches(c, token)
    ensures Sane(c.(clock := c.clock + 1,
                    entries := c.entries[token.key := Cached(Ready(value), token.generation, c.clock + 1)]))
  {}

  lemma NoVictims<K, V>(entries: map<K, Cached<V>>, limit: nat)
    requires |entries| <= limit || LoadingKeys(entries) == {}
    ensures LoadingVictims(entries, limit) == []
  {}

  lemma NextVictim<K, V>(entries: map<K, Cached<V>>, limit: nat, victim: K)
    requires |entries| > limit && LoadingKeys(entries) != {} && victim == Oldest(entries, LoadingKeys(entries))
    ensures victim in LoadingKeys(entries)
    ensures LoadingVictims(entries, limit) == [victim] + LoadingVictims(entries - {victim}, limit)
  {}

  lemma OldestIsUnique<K, V>(entries: map<K, Cached<V>>, keys: set<K>, k: K)
    requires keys <= entries.Keys && StampsDistinct(entries) && IsOldest(entries, keys, k)
    ensures k == Oldest(entries, keys)
  {}

  lemma RemoveLast<K, V>(entries: map<K, Cached<V>>, done: seq<K>, last: K)
    ensures entries - Elements(done) - {last} == entries - Elements(done + [last])
  {}

  lemma FewerEntries<K, V>(entries: map<K, Cached<V>>, keys: set<K>)
    ensures |ReadyKeys(entries - keys)| <= |ReadyKeys(entries)| && |entries - keys| <= |entries|
  {
    NoLarger(ReadyKeys(entries - keys), ReadyKeys(entries));
    NoLarger((entries - keys).Keys, entries.Keys);
  }

  lemma NoLarger<T>(a: set<T>, b: set<T>)
    requires a <= b
    ensures |a| <= |b|
  {
    assert b == a + (b - a);
  }
}
