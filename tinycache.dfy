/** `TinyCache` of tinycache.js as a class: the fields `cache`, `debug`,
    `hitCount` and `missCount`, plus the clock and the pending timers of the
    host; every method is proved to follow the matching function of
    TinyState. */
module TinyCacheStore {
  import opened Host
  import opened TinyState

  class TinyCache<V> {
    var cache: map<string, TRecord<V>>   // self.cache
    var order: seq<string>               // the iteration order of self.cache
    var debug: bool                      // self.debug, set directly by callers
    var hitCount: nat                    // self.hitCount
    var missCount: nat                   // self.missCount
    var now: int                         // what now() returns
    var timers: map<Handle, TTimer>      // the pending setTimeout calls
    var nextHandle: Handle

    ghost function Model(): TState<V>
      reads this
    {
      TState(cache, order, hitCount, missCount, debug, now, timers, nextHandle)
    }

    ghost predicate Valid()
      reads this
    {
      WF(Model())
    }

    /** `new TinyCache()`, created when the clock reads `clock`. */
    constructor (clock: int)
      ensures Valid() && Model() == Empty(clock)
    {
      cache, order, debug := map[], [], false;
      hitCount, missCount := 0, 0;
      now, timers, nextHandle := clock, map[], 0;
    }

    method Put(k: string, v: V, time: Ttl)
      requires Valid()
      modifies this
      ensures Model() == TinyState.Put(old(Model()), k, v, time)
      ensures Valid()
    {
      if k in cache {
        timers := Cancel(timers, cache[k].timeout);
      } else {
        order := order + [k];
      }
      var expire := ExpireOf(time, now);
      var timeout: Option<Handle> := None;
      if expire.Some? {
        timeout := Some(nextHandle);
        timers := timers[nextHandle := TTimer(k, now + time.ms)];
        nextHandle := nextHandle + 1;
      }
      cache := cache[k := TRecord(v, expire, timeout)];
    }

    method Del(k: string)
      requires Valid()
      modifies this
      ensures Model() == TinyState.Del(old(Model()), k)
      ensures Valid()
    {
      cache := cache - {k};
      order := RemoveKey(order, k);
    }

    method Clear()
      requires Valid()
      modifies this
      ensures Model() == TinyState.Clear(old(Model()))
      ensures Valid()
    {
      cache := map[];
      order := [];
    }

    method Get(k: string) returns (r: Option<V>)
      requires Valid()
      modifies this
      ensures Model() == TinyState.Get(old(Model()), k).state
      ensures r == TinyState.Get(old(Model()), k).result
      ensures Valid()
    {
      ghost var s := Model();
      r := None;
      if k in cache {
        var data := cache[k];
        if data.expire.None? || data.expire.value >= now {
          if debug {
            hitCount := hitCount + 1;
          }
          r := Some(data.value);
          assert Model() == s.(hits := if s.debug then s.hits + 1 else s.hits);
        } else {
          // free some space
          if debug {
            missCount := missCount + 1;
          }
          Del(k);
          assert Model() == TinyState.Del(s.(misses := if s.debug then s.misses + 1 else s.misses), k);
        }
      }
    }

    /** `size()`: a get on every key, counting the live ones; the expired
        ones are deleted on the way. */
    method Size() returns (n: nat)
      requires Valid()
      modifies this
      ensures Model() == TinyState.Size(old(Model())).state
      ensures n == TinyState.Size(old(Model())).result
      ensures Valid()
    {
      var keys := order;
      n := 0;
      var i := 0;
      while i < |keys|
        invariant 0 <= i <= |keys|
        invariant TStep(Model(), n) == SizeFrom(old(Model()), keys[..i])
        invariant Valid()
      {
        SizeFromNext(old(Model()), keys, i);
        n := SizeStep(keys[i], n);
        i := i + 1;
      }
      assert keys[..i] == keys;
    }

    /** One pass of size()'s loop: get on the key `k`, counted when it
        answers. */
    method SizeStep(k: string, n: nat) returns (n': nat)
      requires Valid()
      modifies this
      ensures TStep(Model(), n') == SizeNext(TStep(old(Model()), n), k)
      ensures Valid()
    {
      var value := Get(k);
      n' := if value.Some? then n + 1 else n;
    }

    /** `memsize()`: counts the keys one by one. */
    method MemSize() returns (n: nat)
      requires Valid()
      ensures n == |cache|
    {
      n := 0;
      var i := 0;
      while i < |order|
        invariant 0 <= i <= |order|
        invariant n == i
      {
        n := n + 1;
        i := i + 1;
      }
      DistinctCard(order, cache.Keys);
    }

    method Hits() returns (n: nat)
      ensures n == hitCount
    {
      return hitCount;
    }

    method Misses() returns (n: nat)
      ensures n == missCount
    {
      return missCount;
    }

    /** The clock moves forward by `dt` milliseconds. */
    method Tick(dt: nat)
      requires Valid()
      modifies this
      ensures Model() == TinyState.Tick(old(Model()), dt)
      ensures Valid()
    {
      now := now + dt;
    }

    /** The host runs the pending, due timer `h`: `_self.del(key)`. */
    method Fire(h: Handle)
      requires Valid() && h in timers && timers[h].due <= now
      modifies this
      ensures Model() == TinyState.Fire(old(Model()), h)
      ensures Valid()
    {
      var k := timers[h].key;
      timers := timers - {h};
      Del(k);
    }
  }
}
