/** The LRU cache with per-entry expiry (performance_optimizer.py,
    `LRUCache`): a map from keys to entries plus the access order, oldest
    first. The clock is a parameter: every operation that reads
    `time.time()` takes `now`. */
module Lru {
  import opened Wrappers

  /** A cached value, when it was stored, how often it was read, and how
      many seconds it stays valid. */
  datatype Entry<V> = Entry(value: V, timestamp: real, accessCount: nat, ttl: real)

  /** The cache: the capacity, the expiry used when a caller gives none,
      the entries and the access order (least recently used first). */
  datatype Cache<V> = Cache(maxSize: int, defaultTtl: real, entries: map<string, Entry<V>>, order: seq<string>)

  /** A new, empty cache. */
  function Empty<V>(maxSize: int, defaultTtl: real): (c: Cache<V>)
    ensures Valid(c) && c.entries == map[] && c.order == []
  {
    Cache(maxSize, defaultTtl, map[], [])
  }

  /** No key occurs twice in a sequence. */
  ghost predicate Distinct(xs: seq<string>) {
    forall k :: multiset(xs)[k] <= 1
  }

  /** The cache's invariant: the entries' keys are exactly the keys in the
      access order, and none of them is listed twice. */
  ghost predicate Valid<V>(c: Cache<V>) {
    (forall k :: k in c.entries <==> k in c.order) && Distinct(c.order)
  }

  /** The most entries a cache of this capacity can hold: its capacity, or
      one when the capacity is below one (a full cache still takes the new
      key after evicting). */
  function Capacity(maxSize: int): nat {
    if maxSize >= 1 then maxSize else 1
  }

  predicate Bounded<V>(c: Cache<V>) {
    |c.entries| <= Capacity(c.maxSize)
  }

  // ---------------------------------------------------------------------
  // The access order

  /** The position of the first occurrence of `x`. */
  function IndexOf(xs: seq<string>, x: string): (i: nat)
    requires x in xs
    ensures i < |xs| && xs[i] == x && x !in xs[..i]
  {
    if xs[0] == x then 0
    else
      var i := IndexOf(xs[1..], x);
      assert xs[..i + 1] == [xs[0]] + xs[1..][..i];
      i + 1
  }

  /** `list.remove`: the sequence without the first occurrence of `x`,
      unchanged when `x` is not in it. */
  function RemoveFirst(xs: seq<string>, x: string): (r: seq<string>)
    ensures x !in xs ==> r == xs
    ensures x in xs ==> |r| == |xs| - 1 && r == xs[..IndexOf(xs, x)] + xs[IndexOf(xs, x) + 1..]
    ensures multiset(r) == multiset(xs) - multiset{x}
  {
    if x in xs then
      var i := IndexOf(xs, x);
      assert xs == xs[..i] + [x] + xs[i + 1..];
      xs[..i] + xs[i + 1..]
    else xs
  }

  /** `_move_to_end`: a listed key is taken out and appended; an unlisted
      key leaves the order alone. */
  function MoveToEnd(order: seq<string>, key: string): (r: seq<string>)
    ensures key in order ==> |r| == |order| && r[|r| - 1] == key
    ensures key !in order ==> r == order
    ensures multiset(r) == multiset(order)
  {
    if key in order then
      var rest := RemoveFirst(order, key);
      assert multiset(rest + [key]) == multiset(rest) + multiset{key};
      rest + [key]
    else order
  }

  /** Moving a key of a duplicate-free order keeps it duplicate-free, holds
      the same keys, and leaves the other keys in their relative order. */
  lemma MoveToEndKeepsOthersInOrder(order: seq<string>, key: string)
    requires Distinct(order) && key in order
    ensures Distinct(MoveToEnd(order, key))
    ensures MoveToEnd(order, key)[..|order| - 1] == RemoveFirst(order, key)
    ensures key !in MoveToEnd(order, key)[..|order| - 1]
  {
    var rest := RemoveFirst(order, key);
    assert multiset(rest)[key] == 0;
    assert MoveToEnd(order, key)[..|order| - 1] == rest;
  }

  // ---------------------------------------------------------------------
  // Operations

  /** `_remove`: the key's entry and its place in the order go; a key the
      cache does not hold changes nothing. */
  function Remove<V>(c: Cache<V>, key: string): (r: Cache<V>)
    ensures key !in c.entries ==> r == c
    ensures key !in r.entries
    ensures forall k :: k != key ==> (k in r.entries <==> k in c.entries)
    ensures forall k :: k in r.entries ==> r.entries[k] == c.entries[k]
    ensures r.maxSize == c.maxSize && r.defaultTtl == c.defaultTtl
    ensures key in c.entries ==> r.order == RemoveFirst(c.order, key)
  {
    if key in c.entries then c.(entries := c.entries - {key}, order := RemoveFirst(c.order, key))
    else c
  }

  /** Removing keeps the invariant and, from a valid cache, drops exactly one
      entry when the key was held. */
  lemma RemoveValid<V>(c: Cache<V>, key: string)
    requires Valid(c)
    ensures Valid(Remove(c, key))
    ensures |Remove(c, key).entries| == if key in c.entries then |c.entries| - 1 else |c.entries|
  {
    if key in c.entries {
      var r := Remove(c, key);
      assert r.entries == c.entries - {key};
      assert multiset(r.order) == multiset(c.order) - multiset{key};
      forall k ensures k in r.entries <==> k in r.order {
        assert k in r.order <==> k in multiset(r.order);
        assert k in c.order <==> k in multiset(c.order);
      }
      MapRemoveCard(c.entries, key);
    }
  }

  /** Taking a held key out of a map drops its size by one. */
  lemma MapRemoveCard<V>(m: map<string, V>, key: string)
    requires key in m
    ensures |m - {key}| == |m| - 1
  {
    assert (m - {key}).Keys == m.Keys - {key};
    assert m.Keys == (m.Keys - {key}) + {key};
  }

  /** `_evict_lru`: the least recently used key is removed, if there is one. */
  function EvictLru<V>(c: Cache<V>): (r: Cache<V>)
    ensures c.order == [] ==> r == c
    ensures c.order != [] ==> r == Remove(c, c.order[0])
  {
    if c.order != [] then Remove(c, c.order[0]) else c
  }

  /** `clear`: no entries and an empty order. */
  function Clear<V>(c: Cache<V>): (r: Cache<V>)
    ensures Valid(r) && Bounded(r)
    ensures r.entries == map[] && r.order == []
    ensures r.maxSize == c.maxSize && r.defaultTtl == c.defaultTtl
  {
    c.(entries := map[], order := [])
  }

  /** An entry has expired when strictly more than its ttl has passed. */
  predicate Expired<V>(e: Entry<V>, now: real) {
    now - e.timestamp > e.ttl
  }

  /** The cache after a `get`, and what `get` returned. */
  datatype Got<V> = Got(cache: Cache<V>, value: Option<V>)

  /** `get`: None for a missing key; None for an expired entry, which is
      removed; otherwise the value, with the entry's access count raised by
      one and the key moved to the end of the order. */
  function Get<V>(c: Cache<V>, key: string, now: real): (r: Got<V>)
    ensures key !in c.entries ==> r == Got(c, None)
    ensures key in c.entries && Expired(c.entries[key], now) ==> r == Got(Remove(c, key), None)
    ensures key in c.entries && !Expired(c.entries[key], now) ==> (r.value == Some(c.entries[key].value)
      && r.cache.entries.Keys == c.entries.Keys
      && r.cache.entries[key] == c.entries[key].(accessCount := c.entries[key].accessCount + 1)
      && (forall k :: k in c.entries && k != key ==> r.cache.entries[k] == c.entries[k])
      && r.cache.order == MoveToEnd(c.order, key))
    ensures r.value.Some? <==> key in c.entries && !Expired(c.entries[key], now)
    ensures r.cache.maxSize == c.maxSize && r.cache.defaultTtl == c.defaultTtl
  {
    if key !in c.entries then Got(c, None)
    else
      var e := c.entries[key];
      if Expired(e, now) then Got(Remove(c, key), None)
      else Got(c.(entries := c.entries[key := e.(accessCount := e.accessCount + 1)], order := MoveToEnd(c.order, key)), Some(e.value))
  }

  /** `ttl or self.default_ttl`: a missing or zero ttl means the default. */
  function EffectiveTtl(ttl: Option<real>, defaultTtl: real): (t: real)
    ensures ttl.None? || ttl.value == 0.0 ==> t == defaultTtl
    ensures ttl.Some? && ttl.value != 0.0 ==> t == ttl.value
  {
    if ttl.Some? && ttl.value != 0.0 then ttl.value else defaultTtl
  }

  /** `set`: a held key gets the new value, time and ttl (its access count
      kept) and moves to the end; a new key first evicts the least recently
      used entry when the cache is full, then is appended with a zero
      access count. */
  function Set<V>(c: Cache<V>, key: string, value: V, ttl: Option<real>, now: real): (r: Cache<V>)
    ensures key in r.entries
    ensures r.entries[key].value == value && r.entries[key].timestamp == now
    ensures r.entries[key].ttl == EffectiveTtl(ttl, c.defaultTtl)
    ensures r.maxSize == c.maxSize && r.defaultTtl == c.defaultTtl
    ensures key in c.entries ==> (r.entries.Keys == c.entries.Keys
      && r.entries[key].accessCount == c.entries[key].accessCount
      && (forall k :: k in c.entries && k != key ==> r.entries[k] == c.entries[k])
      && r.order == MoveToEnd(c.order, key))
    ensures key !in c.entries ==> (r.entries[key].accessCount == 0
      && r == EvictIfFull(c).(entries := EvictIfFull(c).entries[key := Entry(value, now, 0, EffectiveTtl(ttl, c.defaultTtl))],
                             order := EvictIfFull(c).order + [key]))
  {
    var t := EffectiveTtl(ttl, c.defaultTtl);
    if key in c.entries then
      var e := c.entries[key];
      c.(entries := c.entries[key := e.(value := value, timestamp := now, ttl := t)], order := MoveToEnd(c.order, key))
    else
      var room := EvictIfFull(c);
      room.(entries := room.entries[key := Entry(value, now, 0, t)], order := room.order + [key])
  }

  /** The eviction `set` performs before adding a new key: only when the
      cache holds at least `max_size` entries. */
  function EvictIfFull<V>(c: Cache<V>): (r: Cache<V>)
    ensures |c.entries| < c.maxSize ==> r == c
    ensures |c.entries| >= c.maxSize ==> r == EvictLru(c)
  {
    if |c.entries| >= c.maxSize then EvictLru(c) else c
  }

  // ---------------------------------------------------------------------
  // Invariant and capacity

  /** `get` keeps the invariant and the size bound. */
  lemma GetValid<V>(c: Cache<V>, key: string, now: real)
    requires Valid(c) && Bounded(c)
    ensures Valid(Get(c, key, now).cache) && Bounded(Get(c, key, now).cache)
  {
    if key in c.entries {
      if Expired(c.entries[key], now) {
        RemoveValid(c, key);
      } else {
        var r := Get(c, key, now).cache;
        MoveToEndKeepsOthersInOrder(c.order, key);
        forall k ensures k in r.entries <==> k in r.order {
          assert k in r.order <==> k in multiset(r.order);
          assert k in c.order <==> k in multiset(c.order);
        }
        assert r.entries.Keys == c.entries.Keys;
      }
    }
  }

  /** Updating a held key keeps the invariant and the entry count. */
  lemma SetHeldValid<V>(c: Cache<V>, key: string, value: V, ttl: Option<real>, now: real)
    requires Valid(c) && key in c.entries
    ensures Valid(Set(c, key, value, ttl, now))
    ensures |Set(c, key, value, ttl, now).entries| == |c.entries|
  {
    var r := Set(c, key, value, ttl, now);
    MoveToEndKeepsOthersInOrder(c.order, key);
    forall k ensures k in r.entries <==> k in r.order {
      assert k in r.order <==> k in multiset(r.order);
      assert k in c.order <==> k in multiset(c.order);
    }
    assert r.entries.Keys == c.entries.Keys;
  }

  /** Adding a new key keeps the invariant, and the cache never grows past
      its capacity: a full cache gives up its least recently used entry
      first. */
  lemma SetNewValid<V>(c: Cache<V>, key: string, value: V, ttl: Option<real>, now: real)
    requires Valid(c) && Bounded(c) && key !in c.entries
    ensures Valid(Set(c, key, value, ttl, now)) && Bounded(Set(c, key, value, ttl, now))
  {
    var room := EvictIfFull(c);
    var r := Set(c, key, value, ttl, now);
    RoomForNew(c);
    assert key !in room.order;
    assert r.entries == room.entries[key := Entry(value, now, 0, EffectiveTtl(ttl, c.defaultTtl))];
    assert r.order == room.order + [key];
    assert multiset(r.order) == multiset(room.order) + multiset{key};
    forall k ensures k in r.entries <==> k in r.order {
      assert k in r.order <==> k in multiset(r.order);
      assert k in room.order <==> k in multiset(room.order);
    }
  }

  /** Before a new key goes in, the cache is valid and strictly below its
      capacity. */
  lemma RoomForNew<V>(c: Cache<V>)
    requires Valid(c) && Bounded(c)
    ensures Valid(EvictIfFull(c)) && |EvictIfFull(c).entries| < Capacity(c.maxSize)
    ensures forall k :: k in EvictIfFull(c).entries ==> k in c.entries
  {
    if |c.entries| >= c.maxSize && c.order != [] {
      assert c.order[0] in c.entries;
      RemoveValid(c, c.order[0]);
    } else if |c.entries| >= c.maxSize {
      assert forall k :: k in c.entries ==> k in c.order;
      assert c.entries.Keys == {};
    }
  }

  /** `set` keeps the invariant and the size bound. */
  lemma SetValid<V>(c: Cache<V>, key: string, value: V, ttl: Option<real>, now: real)
    requires Valid(c) && Bounded(c)
    ensures Valid(Set(c, key, value, ttl, now)) && Bounded(Set(c, key, value, ttl, now))
  {
    if key in c.entries {
      SetHeldValid(c, key, value, ttl, now);
    } else {
      SetNewValid(c, key, value, ttl, now);
    }
  }

  /** A full cache that takes a new key loses exactly its least recently
      used key and keeps every other entry. */
  lemma SetEvictsOldest<V>(c: Cache<V>, key: string, value: V, ttl: Option<real>, now: real)
    requires Valid(c) && key !in c.entries && c.order != [] && |c.entries| >= c.maxSize
    ensures c.order[0] !in Set(c, key, value, ttl, now).entries
    ensures forall k :: k in c.entries && k != c.order[0] ==> k in Set(c, key, value, ttl, now).entries
    ensures Set(c, key, value, ttl, now).order == c.order[1..] + [key]
  {
    var oldest := c.order[0];
    assert oldest in c.entries;
    assert oldest != key;
    assert c.order == [oldest] + c.order[1..];
    assert RemoveFirst(c.order, oldest) == c.order[1..];
  }

  // ---------------------------------------------------------------------
  // Reading back what was stored

  /** A value stored by `set` is what `get` returns until its ttl has
      passed, and `get` afterwards returns nothing once it has. */
  lemma SetThenGet<V>(c: Cache<V>, key: string, value: V, ttl: Option<real>, now: real, later: real)
    ensures Get(Set(c, key, value, ttl, now), key, later).value ==
      (if later - now > EffectiveTtl(ttl, c.defaultTtl) then None else Some(value))
  {
  }

  /** Setting one key leaves what `get` reports for another key unchanged,
      unless the new key pushed that key out of a full cache. */
  lemma SetLeavesOthers<V>(c: Cache<V>, key: string, other: string, value: V, ttl: Option<real>, now: real, later: real)
    requires Valid(c) && other != key && other in c.entries
    requires key !in c.entries && |c.entries| >= c.maxSize ==> other != c.order[0]
    ensures other in Set(c, key, value, ttl, now).entries
    ensures Get(Set(c, key, value, ttl, now), other, later).value == Get(c, other, later).value
  {
    if key !in c.entries && |c.entries| >= c.maxSize {
      assert c.order != [];
    }
  }

  /** Removing a key makes `get` miss it, and a second removal changes
      nothing. */
  lemma RemoveThenGet<V>(c: Cache<V>, key: string, now: real)
    ensures Get(Remove(c, key), key, now) == Got(Remove(c, key), None)
    ensures Remove(Remove(c, key), key) == Remove(c, key)
  {
  }
}
