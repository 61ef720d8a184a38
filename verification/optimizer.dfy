/** The caching front of the controllers (performance_optimizer.py,
    `PerformanceOptimizer`): three LRU caches keyed by the controller's
    identity and the device index, and the hit and miss counters. The
    backend's answer is passed in; whether the backend was asked is part of
    the result. */
module Optimizer {
  import opened Wrappers
  import opened Text
  import opened Records
  import opened Lru

  /** The optimizer's state. */
  datatype Optimizer = Optimizer(
    deviceCache: Cache<seq<DeviceInfo>>,
    formatCache: Cache<seq<VideoFormat>>,
    controlCache: Cache<seq<ControlInfo>>,
    hits: nat,
    misses: nat)

  /** A fresh optimizer: the device list kept a minute in up to 32 entries,
      formats five minutes in up to 64, controls 30 seconds in up to 64. */
  function Initial(): (o: Optimizer)
    ensures Healthy(o) && o.hits == 0 && o.misses == 0
    ensures o.deviceCache.maxSize == 32 && o.deviceCache.defaultTtl == 60.0
    ensures o.formatCache.maxSize == 64 && o.formatCache.defaultTtl == 300.0
    ensures o.controlCache.maxSize == 64 && o.controlCache.defaultTtl == 30.0
  {
    Optimizer(Empty(32, 60.0), Empty(64, 300.0), Empty(64, 30.0), 0, 0)
  }

  /** Every cache keeps its invariant and its size bound. */
  ghost predicate Healthy(o: Optimizer) {
    Valid(o.deviceCache) && Bounded(o.deviceCache)
    && Valid(o.formatCache) && Bounded(o.formatCache)
    && Valid(o.controlCache) && Bounded(o.controlCache)
  }

  // ---------------------------------------------------------------------
  // Cache keys

  function DeviceKey(controller: int): string {
    "devices_" + IntToString(controller)
  }

  function FormatKey(controller: int, device: int): string {
    "formats_" + IntToString(controller) + "_" + IntToString(device)
  }

  function ControlKey(controller: int, device: int): string {
    "controls_" + IntToString(controller) + "_" + IntToString(device)
  }

  // ---------------------------------------------------------------------
  // One cached query

  /** The cache after a cached query, the answer, whether it came from the
      cache, and how many times the backend was asked. */
  datatype Query<T> = Query(cache: Cache<T>, answer: T, hit: bool, backendCalls: nat)

  /** The shared shape of the `cached_device_*` methods: unless a refresh is
      forced, a value the cache still holds is returned without asking the
      backend; otherwise the backend's answer is returned and stored under
      the key with the given ttl. */
  function Cached<T>(cache: Cache<T>, key: string, fetched: T, ttl: Option<real>, forceRefresh: bool, now: real): (r: Query<T>)
    ensures r.hit <==> !forceRefresh && Get(cache, key, now).value.Some?
    ensures r.hit ==> (r.answer == Get(cache, key, now).value.value && r.backendCalls == 0
      && r.cache == Get(cache, key, now).cache)
    ensures !r.hit ==> r.answer == fetched && r.backendCalls == 1
    ensures !r.hit ==> (key in r.cache.entries && r.cache.entries[key].value == fetched
      && r.cache.entries[key].timestamp == now)
  {
    var looked := if forceRefresh then Got(cache, None) else Get(cache, key, now);
    if looked.value.Some? then Query(looked.cache, looked.value.value, true, 0)
    else Query(Set(looked.cache, key, fetched, ttl, now), fetched, false, 1)
  }

  /** A cached query keeps the cache's invariant and size bound. */
  lemma CachedHealthy<T>(cache: Cache<T>, key: string, fetched: T, ttl: Option<real>, forceRefresh: bool, now: real)
    requires Valid(cache) && Bounded(cache)
    ensures Valid(Cached(cache, key, fetched, ttl, forceRefresh, now).cache)
    ensures Bounded(Cached(cache, key, fetched, ttl, forceRefresh, now).cache)
  {
    if forceRefresh {
      SetValid(cache, key, fetched, ttl, now);
    } else {
      GetValid(cache, key, now);
      var looked := Get(cache, key, now);
      if looked.value.None? {
        SetValid(looked.cache, key, fetched, ttl, now);
      }
    }
  }

  /** Asking again at the same moment, without forcing a refresh, is a hit
      on what the first query returned, and does not reach the backend —
      whenever the stored entry's ttl is not negative. */
  lemma SecondQueryHits<T>(cache: Cache<T>, key: string, fetched: T, again: T, ttl: Option<real>, forceRefresh: bool, now: real)
    requires EffectiveTtl(ttl, cache.defaultTtl) >= 0.0
    ensures Cached(Cached(cache, key, fetched, ttl, forceRefresh, now).cache, key, again, ttl, false, now).hit
    ensures Cached(Cached(cache, key, fetched, ttl, forceRefresh, now).cache, key, again, ttl, false, now).answer
      == Cached(cache, key, fetched, ttl, forceRefresh, now).answer
    ensures Cached(Cached(cache, key, fetched, ttl, forceRefresh, now).cache, key, again, ttl, false, now).backendCalls == 0
  {
    var first := Cached(cache, key, fetched, ttl, forceRefresh, now);
    if !first.hit {
      var looked := if forceRefresh then Got(cache, None) else Get(cache, key, now);
      assert first.cache == Set(looked.cache, key, fetched, ttl, now);
      SetThenGet(looked.cache, key, fetched, ttl, now, now);
      assert looked.cache.defaultTtl == cache.defaultTtl;
    } else {
      var e := first.cache.entries[key];
      assert e.value == first.answer;
      assert !Expired(e, now) by {
        assert e == cache.entries[key].(accessCount := cache.entries[key].accessCount + 1);
        assert !Expired(cache.entries[key], now);
      }
    }
  }

  // ---------------------------------------------------------------------
  // The three cached queries

  /** The optimizer after a cached query, the answer, and how many times
      the backend was asked. */
  datatype Answer<T> = Answer(optimizer: Optimizer, value: T, backendCalls: nat)

  /** Counts a hit or a miss. */
  function Count(o: Optimizer, hit: bool): (r: Optimizer)
    ensures r.hits + r.misses == o.hits + o.misses + 1
    ensures hit ==> r.hits == o.hits + 1 && r.misses == o.misses
    ensures !hit ==> r.misses == o.misses + 1 && r.hits == o.hits
  {
    if hit then o.(hits := o.hits + 1) else o.(misses := o.misses + 1)
  }

  /** `cached_device_list`: the device list under "devices_<id>", stored
      with the cache's default ttl of a minute. `listed` is what
      `list_devices` would answer. */
  function CachedDeviceList(o: Optimizer, controller: int, listed: seq<DeviceInfo>, forceRefresh: bool, now: real): (r: Answer<seq<DeviceInfo>>)
    ensures r.optimizer.hits + r.optimizer.misses == o.hits + o.misses + 1
    ensures r.optimizer.formatCache == o.formatCache && r.optimizer.controlCache == o.controlCache
    ensures r.backendCalls == 0 <==> !forceRefresh && Get(o.deviceCache, DeviceKey(controller), now).value.Some?
    ensures r.backendCalls == 0 ==> r.value == Get(o.deviceCache, DeviceKey(controller), now).value.value && r.optimizer.hits == o.hits + 1
    ensures r.backendCalls != 0 ==> r.backendCalls == 1 && r.value == listed && r.optimizer.misses == o.misses + 1
  {
    var q := Cached(o.deviceCache, DeviceKey(controller), listed, None, forceRefresh, now);
    Answer(Count(o, q.hit).(deviceCache := q.cache), q.answer, q.backendCalls)
  }

  /** `cached_device_formats`: formats under "formats_<id>_<index>", stored
      with the cache's default ttl of five minutes. */
  function CachedDeviceFormats(o: Optimizer, controller: int, device: int, formats: seq<VideoFormat>, forceRefresh: bool, now: real): (r: Answer<seq<VideoFormat>>)
    ensures r.optimizer.hits + r.optimizer.misses == o.hits + o.misses + 1
    ensures r.optimizer.deviceCache == o.deviceCache && r.optimizer.controlCache == o.controlCache
    ensures r.backendCalls == 0 <==> !forceRefresh && Get(o.formatCache, FormatKey(controller, device), now).value.Some?
    ensures r.backendCalls == 0 ==> r.value == Get(o.formatCache, FormatKey(controller, device), now).value.value && r.optimizer.hits == o.hits + 1
    ensures r.backendCalls != 0 ==> r.backendCalls == 1 && r.value == formats && r.optimizer.misses == o.misses + 1
  {
    var q := Cached(o.formatCache, FormatKey(controller, device), formats, None, forceRefresh, now);
    Answer(Count(o, q.hit).(formatCache := q.cache), q.answer, q.backendCalls)
  }

  /** `cached_device_controls`: controls under "controls_<id>_<index>",
      stored with an explicit ttl of 30 seconds. */
  function CachedDeviceControls(o: Optimizer, controller: int, device: int, controls: seq<ControlInfo>, forceRefresh: bool, now: real): (r: Answer<seq<ControlInfo>>)
    ensures r.optimizer.hits + r.optimizer.misses == o.hits + o.misses + 1
    ensures r.optimizer.deviceCache == o.deviceCache && r.optimizer.formatCache == o.formatCache
    ensures r.backendCalls == 0 <==> !forceRefresh && Get(o.controlCache, ControlKey(controller, device), now).value.Some?
    ensures r.backendCalls == 0 ==> r.value == Get(o.controlCache, ControlKey(controller, device), now).value.value && r.optimizer.hits == o.hits + 1
    ensures r.backendCalls != 0 ==> r.backendCalls == 1 && r.value == controls && r.optimizer.misses == o.misses + 1
  {
    var q := Cached(o.controlCache, ControlKey(controller, device), controls, Some(30.0), forceRefresh, now);
    Answer(Count(o, q.hit).(controlCache := q.cache), q.answer, q.backendCalls)
  }

  /** A device-list query either hits (one more hit, the cached list, no
      backend call, the other caches untouched) or misses (one more miss,
      the backend's list, one backend call); either way the optimizer stays
      healthy. */
  lemma DeviceListAccounting(o: Optimizer, controller: int, listed: seq<DeviceInfo>, forceRefresh: bool, now: real)
    requires Healthy(o)
    ensures var r := CachedDeviceList(o, controller, listed, forceRefresh, now);
      Healthy(r.optimizer)
      && r.optimizer.formatCache == o.formatCache && r.optimizer.controlCache == o.controlCache
      && (var cached := Get(o.deviceCache, DeviceKey(controller), now).value;
          if !forceRefresh && cached.Some? then
            r.value == cached.value && r.backendCalls == 0 && r.optimizer.hits == o.hits + 1 && r.optimizer.misses == o.misses
          else
            r.value == listed && r.backendCalls == 1 && r.optimizer.misses == o.misses + 1 && r.optimizer.hits == o.hits)
  {
    CachedHealthy(o.deviceCache, DeviceKey(controller), listed, None, forceRefresh, now);
  }

  /** A format query either hits or misses, as for the device list; either
      way the optimizer stays healthy. */
  lemma FormatAccounting(o: Optimizer, controller: int, device: int, formats: seq<VideoFormat>, forceRefresh: bool, now: real)
    requires Healthy(o)
    ensures var r := CachedDeviceFormats(o, controller, device, formats, forceRefresh, now);
      Healthy(r.optimizer)
      && r.optimizer.deviceCache == o.deviceCache && r.optimizer.controlCache == o.controlCache
      && (var cached := Get(o.formatCache, FormatKey(controller, device), now).value;
          if !forceRefresh && cached.Some? then
            r.value == cached.value && r.backendCalls == 0 && r.optimizer.hits == o.hits + 1 && r.optimizer.misses == o.misses
          else
            r.value == formats && r.backendCalls == 1 && r.optimizer.misses == o.misses + 1 && r.optimizer.hits == o.hits)
  {
    CachedHealthy(o.formatCache, FormatKey(controller, device), formats, None, forceRefresh, now);
  }

  /** A control query either hits or misses, as for the device list, and a
      miss stores the answer for 30 seconds whatever the cache's default. */
  lemma ControlAccounting(o: Optimizer, controller: int, device: int, controls: seq<ControlInfo>, forceRefresh: bool, now: real)
    requires Healthy(o)
    ensures var r := CachedDeviceControls(o, controller, device, controls, forceRefresh, now);
      Healthy(r.optimizer)
      && r.optimizer.deviceCache == o.deviceCache && r.optimizer.formatCache == o.formatCache
      && (var cached := Get(o.controlCache, ControlKey(controller, device), now).value;
          if !forceRefresh && cached.Some? then
            r.value == cached.value && r.backendCalls == 0 && r.optimizer.hits == o.hits + 1 && r.optimizer.misses == o.misses
          else
            (r.value == controls && r.backendCalls == 1 && r.optimizer.misses == o.misses + 1 && r.optimizer.hits == o.hits
             && r.optimizer.controlCache.entries[ControlKey(controller, device)].ttl == 30.0))
  {
    CachedHealthy(o.controlCache, ControlKey(controller, device), controls, Some(30.0), forceRefresh, now);
  }

  // ---------------------------------------------------------------------
  // Invalidation

  /** `invalidate_cache`: with a device index, that device's format and
      control entries are dropped; without one, the controller's device
      list is dropped and the format and control caches are emptied. */
  function InvalidateCache(o: Optimizer, controller: int, device: Option<int>): (r: Optimizer)
    ensures r.hits == o.hits && r.misses == o.misses
    ensures device.Some? ==> (r.deviceCache == o.deviceCache
      && FormatKey(controller, device.value) !in r.formatCache.entries
      && ControlKey(controller, device.value) !in r.controlCache.entries
      && (forall k :: k in o.formatCache.entries && k != FormatKey(controller, device.value) ==>
            k in r.formatCache.entries && r.formatCache.entries[k] == o.formatCache.entries[k])
      && (forall k :: k in o.controlCache.entries && k != ControlKey(controller, device.value) ==>
            k in r.controlCache.entries && r.controlCache.entries[k] == o.controlCache.entries[k]))
    ensures device.None? ==> (DeviceKey(controller) !in r.deviceCache.entries
      && (forall k :: k in o.deviceCache.entries && k != DeviceKey(controller) ==>
            k in r.deviceCache.entries && r.deviceCache.entries[k] == o.deviceCache.entries[k])
      && r.formatCache.entries == map[] && r.formatCache.order == []
      && r.controlCache.entries == map[] && r.controlCache.order == [])
  {
    match device
    case Some(index) =>
      o.(formatCache := Remove(o.formatCache, FormatKey(controller, index)),
         controlCache := Remove(o.controlCache, ControlKey(controller, index)))
    case None =>
      o.(deviceCache := Remove(o.deviceCache, DeviceKey(controller)),
         formatCache := Clear(o.formatCache),
         controlCache := Clear(o.controlCache))
  }

  /** Invalidation keeps the optimizer healthy, and the next query for an
      invalidated key misses and asks the backend. */
  lemma InvalidateThenMiss(o: Optimizer, controller: int, device: int, formats: seq<VideoFormat>, controls: seq<ControlInfo>, now: real)
    requires Healthy(o)
    ensures Healthy(InvalidateCache(o, controller, Some(device)))
    ensures Healthy(InvalidateCache(o, controller, None))
    ensures CachedDeviceFormats(InvalidateCache(o, controller, Some(device)), controller, device, formats, false, now).backendCalls == 1
    ensures CachedDeviceControls(InvalidateCache(o, controller, Some(device)), controller, device, controls, false, now).backendCalls == 1
  {
    RemoveValid(o.formatCache, FormatKey(controller, device));
    RemoveValid(o.controlCache, ControlKey(controller, device));
    RemoveValid(o.deviceCache, DeviceKey(controller));
  }
}
