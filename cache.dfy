/** The `Cache` constructor of index.js as a class: its closure variables
    are the fields, and every method is proved to move the fields exactly
    as the matching function of CacheState moves the state. */
module ExpiringCache {
  import opened Host
  import opened CacheState

  /** The handles of the timers that the records of the keys `ks` point at. */
  ghost function TimeoutsOfKeys<V>(records: map<string, Record<V>>, ks: seq<string>): set<Handle> {
    set j | 0 <= j < |ks| && ks[j] in records && records[ks[j]].timeout.Some? :: records[ks[j]].timeout.value
  }

  lemma TimeoutsOfKeysStep<V>(records: map<string, Record<V>>, ks: seq<string>, i: nat)
    requires i < |ks| && ks[i] in records
    ensures TimeoutsOfKeys(records, ks[..i + 1]) ==
      TimeoutsOfKeys(records, ks[..i]) + (if records[ks[i]].timeout.Some? then {records[ks[i]].timeout.value} else {})
  {
    assert forall j :: 0 <= j < i ==> ks[..i + 1][j] == ks[..i][j];
    assert ks[..i + 1][i] == ks[i];
  }

  lemma TimeoutsOfKeysAll<V>(records: map<string, Record<V>>, ks: seq<string>)
    requires forall k :: k in records <==> k in ks
    ensures TimeoutsOfKeys(records, ks) == TimeoutsOf(records)
  {
    forall h | h in TimeoutsOf(records) ensures h in TimeoutsOfKeys(records, ks) {
      var k :| k in records && records[k].timeout == Some(h);
      var j :| 0 <= j < |ks| && ks[j] == k;
    }
  }

  class Cache<V> {
    var records: map<string, Record<V>>   // _cache
    var order: seq<string>                // the iteration order of _cache
    var size: int                         // _size
    var hitCount: nat                     // _hitCount
    var missCount: nat                    // _missCount
    var debugOn: bool                     // _debug
    var now: int                          // what Date.now() returns
    var timers: map<Handle, Timer<V>>     // the pending setTimeout calls
    var nextHandle: Handle                // the handle setTimeout returns next

    ghost function Model(): State<V>
      reads this
    {
      State(records, order, size, hitCount, missCount, debugOn, now, timers, nextHandle)
    }

    ghost predicate Valid()
      reads this
    {
      WF(Model())
    }

    /** `new Cache()`, created when the clock reads `clock`. */
    constructor (clock: int)
      ensures Valid() && Model() == Empty(clock)
    {
      records, order, size := map[], [], 0;
      hitCount, missCount, debugOn := 0, 0, false;
      now, timers, nextHandle := clock, map[], 0;
    }

    method Put(k: string, v: V, time: Ttl, cb: CallbackArg) returns (r: Result<V, PutError>)
      requires Valid()
      modifies this
      ensures Model() == CacheState.Put(old(Model()), k, v, time, cb).state
      ensures r == CacheState.Put(old(Model()), k, v, time, cb).result
      ensures Valid()
    {
      if time.NotANumber? || (time.Ms? && time.ms <= 0) {
        return Err(TimeoutNotPositive);
      } else if cb.NotAFunction? {
        return Err(CallbackNotFunction);
      }
      StoreRecord(k, v, time, cb);
      r := Ok(v);
    }

    /** The part of put after its argument checks. */
    method StoreRecord(k: string, v: V, time: Ttl, cb: CallbackArg)
      requires Valid() && ValidTtl(time) && !cb.NotAFunction?
      modifies this
      ensures Model() == Store(old(Model()), k, v, time, cb)
      ensures Valid()
    {
      ghost var s := Model();
      if k in records {
        timers := Cancel(timers, records[k].timeout);
      } else {
        size := size + 1;
        order := order + [k];
      }
      var expire: Option<int> := None;
      var timeout: Option<Handle> := None;
      if time.Ms? {
        expire := Some(now + time.ms);
        timeout := Some(nextHandle);
        timers := timers[nextHandle := Timer(k, now + time.ms, v, CallbackOf(cb))];
        nextHandle := nextHandle + 1;
      }
      records := records[k := Record(v, expire, timeout)];
      assert Model() == Store(s, k, v, time, cb) == CacheState.Put(s, k, v, time, cb).state;
    }

    method Del(k: string) returns (canDelete: bool)
      requires Valid()
      modifies this
      ensures Model() == CacheState.Del(old(Model()), k).state
      ensures canDelete == CacheState.Del(old(Model()), k).result
      ensures Valid()
    {
      canDelete := true;
      if k in records {
        var oldRecord := records[k];
        timers := Cancel(timers, oldRecord.timeout);
        if oldRecord.expire.Some? && oldRecord.expire.value < now {
          canDelete := false;
        }
      } else {
        canDelete := false;
      }
      if canDelete {
        DropKey(k);
      }
    }

    /** `_del(key)`. */
    method DropKey(k: string)
      requires Valid()
      modifies this
      ensures Model() == Drop(old(Model()), k)
      ensures Valid()
    {
      size := size - 1;
      records := records - {k};
      order := RemoveKey(order, k);
    }

    method Clear()
      requires Valid()
      modifies this
      ensures Model() == CacheState.Clear(old(Model()))
      ensures Valid()
    {
      CancelAll();
      size := 0;
      records := map[];
      order := [];
      if debugOn {
        hitCount := 0;
        missCount := 0;
      }
    }

    /** clear()'s loop: clearTimeout on the timer of every record. */
    method CancelAll()
      requires Valid()
      modifies this
      ensures Model() == old(Model()).(timers := old(timers) - TimeoutsOf(records))
    {
      var i := 0;
      while i < |order|
        invariant 0 <= i <= |order|
        invariant records == old(records) && order == old(order) && nextHandle == old(nextHandle)
        invariant size == old(size) && hitCount == old(hitCount) && missCount == old(missCount)
        invariant debugOn == old(debugOn) && now == old(now)
        invariant timers == old(timers) - TimeoutsOfKeys(records, order[..i])
      {
        TimeoutsOfKeysStep(records, order, i);
        timers := Cancel(timers, records[order[i]].timeout);
        i := i + 1;
      }
      TimeoutsOfKeysAll(records, order);
      assert order[..i] == order;
    }

    method Get(k: string) returns (r: Option<V>)
      requires Valid()
      modifies this
      ensures Model() == CacheState.Get(old(Model()), k).state
      ensures r == CacheState.Get(old(Model()), k).result
      ensures Valid()
    {
      ghost var s := Model();
      r := None;
      if k in records {
        var data := records[k];
        if data.expire.None? || data.expire.value >= now {
          if debugOn {
            hitCount := hitCount + 1;
          }
          r := Some(data.value);
          assert Model() == s.(hits := if s.debug then s.hits + 1 else s.hits);
        } else {
          // free some space; the timer stays pending
          if debugOn {
            missCount := missCount + 1;
          }
          DropKey(k);
          assert Model() == Drop(s.(misses := if s.debug then s.misses + 1 else s.misses), k);
        }
      } else if debugOn {
        missCount := missCount + 1;
      }
    }

    /** `size()`: the counter, which can differ from MemSize (see
        CacheLaws.ExpiredGetThenFireDecrementsTwice). */
    method Size() returns (n: int)
      ensures n == size
    {
      return size;
    }

    /** `memsize()`: counts the keys one by one. */
    method MemSize() returns (n: nat)
      requires Valid()
      ensures n == |records|
    {
      n := 0;
      var i := 0;
      while i < |order|
        invariant 0 <= i <= |order|
        invariant n == i
      {
        n := n + 1;
        i := i + 1;
      }
      DistinctCard(order, records.Keys);
    }

    /** `debug(bool)`: sets the flag and nothing else. */
    method Debug(b: bool)
      requires Valid()
      modifies this
      ensures Model() == SetDebug(old(Model()), b)
      ensures Valid()
    {
      debugOn := b;
    }

    method Hits() returns (n: nat)
      ensures n == hitCount
    {
      return hitCount;
    }

    method Misses() returns (n: nat)
      ensures n == missCount
    {
      return missCount;
    }

    /** `keys()`: every key once, in the map's order. */
    method Keys() returns (ks: seq<string>)
      requires Valid()
      ensures Distinct(ks) && (forall k :: k in ks <==> k in records)
      ensures ks == order
    {
      return order;
    }

    /** `exportJson()` before `JSON.stringify`: one entry per key, in order. */
    method ExportRecords() returns (es: seq<Entry<V>>)
      requires Valid()
      ensures es == Export(Model())
    {
      es := [];
      var i := 0;
      while i < |order|
        invariant 0 <= i <= |order|
        invariant es == ExportKeys(records, order[..i])
      {
        var k := order[i];
        var record := records[k];
        assert order[..i + 1][..i] == order[..i];
        es := es + [Entry(k, record.value, ExportExpire(record.expire))];
        i := i + 1;
      }
      assert order[..i] == order;
    }

    /** `importJson(json, {skipDuplicates: skip})` after `JSON.parse`. */
    method ImportRecords(es: seq<Entry<V>>, skip: bool) returns (n: int)
      requires Valid()
      modifies this
      ensures Model() == Import(old(Model()), es, skip).state
      ensures n == Import(old(Model()), es, skip).result
      ensures Valid()
    {
      var currTime := now;
      var i := 0;
      while i < |es|
        invariant 0 <= i <= |es|
        invariant Model() == ImportFrom(old(Model()), es[..i], skip, currTime)
        invariant Valid() && now == currTime
      {
        ImportFromNext(old(Model()), es, i, skip, currTime);
        ImportOne(es[i], skip, currTime);
        i := i + 1;
      }
      assert es[..i] == es;
      n := size;
    }

    /** One pass of importJson's loop, with the time read before it. */
    method ImportOne(e: Entry<V>, skip: bool, currTime: int)
      requires Valid()
      modifies this
      ensures Model() == ImportEntry(old(Model()), e, skip, currTime)
      ensures Valid() && now == old(now)
    {
      if skip && e.key in records {
        return;
      }
      if e.expire.Some? && e.expire.value - currTime <= 0 {
        // the record has expired: delete whatever the cache holds under its key
        var _ := Del(e.key);
      } else {
        var _ := Put(e.key, e.value, RemainingTtl(e.expire, currTime), NoCallback);
      }
    }

    /** The clock moves forward by `dt` milliseconds. */
    method Tick(dt: nat)
      requires Valid()
      modifies this
      ensures Model() == CacheState.Tick(old(Model()), dt)
      ensures Valid()
    {
      now := now + dt;
    }

    /** The host runs the pending, due timer `h`; the callback call it makes
        is returned for the host to carry out. */
    method Fire(h: Handle) returns (inv: Option<Invocation<V>>)
      requires Valid() && h in timers && timers[h].due <= now
      modifies this
      ensures Model() == CacheState.Fire(old(Model()), h).state
      ensures inv == CacheState.Fire(old(Model()), h).result
      ensures Valid()
    {
      var t := timers[h];
      timers := timers - {h};
      DropKey(t.key);
      if t.callback.Some? {
        inv := Some(Invocation(t.callback.value, t.key, t.value));
      } else {
        inv := None;
      }
    }
  }
}
