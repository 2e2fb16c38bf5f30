/** The `HitCache` overlay of hit-cache/hit-cache.js over the expiring cache
    of index.js: values are stored inside a wrapper object whose
    `remainingLife` every hit increments, and whose expiry callback re-puts
    the same wrapper for another lifespan while that life lasts. The wrapper
    is a heap object shared by the record and the pending timer, so a hit
    after put is seen by the timer when it fires. */
module HitCacheOverlay {
  import opened Host
  import opened CacheState
  import opened ExpiringCache

  /** `{remainingLife, value, lifespan}`. */
  class LifeWrapper<V> {
    var remainingLife: nat
    const value: V
    const lifespan: Ttl

    constructor (value: V, lifespan: Ttl)
      ensures remainingLife == 0 && this.value == value && this.lifespan == lifespan
    {
      remainingLife := 0;
      this.value := value;
      this.lifespan := lifespan;
    }
  }

  /** The key `k` holds the wrapper `w`, with a positive lifespan, and its
      record's timer is pending with the reincarnation callback and `w`. */
  ghost predicate Armed<V>(s: State<LifeWrapper<V>>, k: string, w: LifeWrapper<V>) {
    && k in s.records && s.records[k].value == w
    && w.lifespan.Ms? && w.lifespan.ms > 0
    && s.records[k].timeout.Some?
    && var h := s.records[k].timeout.value;
       && h in s.timers && s.timers[h].key == k && s.timers[h].value == w
       && s.timers[h].callback == Some(Reincarnate)
  }

  /** Every key but `k` is where it was, with the record it had. */
  ghost predicate SameElsewhere<V>(s: State<V>, t: State<V>, k: string) {
    && (forall j :: j != k ==> (j in t.records <==> j in s.records))
    && (forall j :: j != k && j in t.records ==> t.records[j] == s.records[j])
  }

  /** A successful set arms the key with the wrapper. */
  lemma SetArms<V>(s: State<LifeWrapper<V>>, k: string, w: LifeWrapper<V>)
    requires WF(s) && w.lifespan.Ms? && w.lifespan.ms > 0
    ensures var t := Put(s, k, w, w.lifespan, Fn(Reincarnate)).state;
      && Armed(t, k, w) && SameElsewhere(s, t, k)
      && t.records[k].expire == Some(s.now + w.lifespan.ms)
      && t.timers[t.records[k].timeout.value].due == s.now + w.lifespan.ms
  {
    var t := Put(s, k, w, w.lifespan, Fn(Reincarnate)).state;
    assert t.records[k].timeout == Some(s.nextHandle);
  }

  /** The timer of an armed key fires and the callback re-puts the wrapper:
      the key is back, armed again for one more lifespan from now, and the
      size is what it was. */
  lemma ReincarnationRearms<V>(s: State<LifeWrapper<V>>, k: string, w: LifeWrapper<V>, h: Handle)
    requires WF(s) && Armed(s, k, w) && s.records[k].timeout == Some(h) && s.timers[h].due <= s.now
    ensures var f := Fire(s, h);
      && f.result == Some(Invocation(Reincarnate, k, w))
      && var t := Put(f.state, k, w, w.lifespan, Fn(Reincarnate)).state;
      && WF(t) && Armed(t, k, w) && SameElsewhere(s, t, k)
      && t.size == s.size && t.now == s.now
      && t.records[k].expire == Some(s.now + w.lifespan.ms)
      && t.timers[t.records[k].timeout.value].due == s.now + w.lifespan.ms
  {
    var f := Fire(s, h);
    assert k !in f.state.records;
    SetArms(f.state, k, w);
  }

  /** The timer of an armed key fires when no life is left: the key is gone
      and the size drops by one. */
  lemma LastExpiryRemoves<V>(s: State<LifeWrapper<V>>, k: string, w: LifeWrapper<V>, h: Handle)
    requires WF(s) && Armed(s, k, w) && s.records[k].timeout == Some(h) && s.timers[h].due <= s.now
    ensures var f := Fire(s, h);
      && f.result == Some(Invocation(Reincarnate, k, w))
      && WF(f.state) && k !in f.state.records && SameElsewhere(s, f.state, k)
      && f.state.size == s.size - 1 && f.state.now == s.now
  {
  }

  /** `new HitCache(cache)` over an expiring cache whose values are wrappers. */
  class HitCache<V> {
    const store: Cache<LifeWrapper<V>>   // this._cache

    ghost predicate Valid()
      reads this, store
    {
      store.Valid()
    }

    constructor (cache: Cache<LifeWrapper<V>>)
      requires cache.Valid()
      ensures store == cache && Valid()
    {
      store := cache;
    }

    /** `set(key, value, lifeSpan)`: a fresh wrapper with no life banked,
        put with the lifespan as ttl and the reincarnation handler as
        callback. The put's error is returned where the source throws it. */
    method Set(k: string, value: V, lifespan: Ttl) returns (err: Option<PutError>, ghost w: LifeWrapper<V>)
      requires Valid()
      modifies store
      ensures fresh(w) && w.remainingLife == 0 && w.value == value && w.lifespan == lifespan
      ensures store.Model() == CacheState.Put(old(store.Model()), k, w, lifespan, Fn(Reincarnate)).state
      ensures err.None? <==> ValidTtl(lifespan)
      ensures err.None? ==> k in store.records && store.records[k].value == w
      ensures err.None? && lifespan.Ms? ==> Armed(store.Model(), k, w)
      ensures Valid()
    {
      var wrapper := new LifeWrapper(value, lifespan);
      ghost var s := store.Model();
      var r := store.Put(k, wrapper, lifespan, Fn(Reincarnate));
      w := wrapper;
      if r.Err? {
        err := Some(r.error);
      } else {
        err := None;
        if lifespan.Ms? {
          SetArms(s, k, w);
        }
      }
    }

    /** `get(key)`: a hit banks one more life in the stored wrapper and
        returns the value inside it; a miss returns nothing and touches no
        wrapper. */
    method Get(k: string) returns (r: Option<V>)
      requires Valid()
      modifies store, if k in store.records then {store.records[k].value} else {}
      ensures store.Model() == CacheState.Get(old(store.Model()), k).state
      ensures r.Some? <==> k in old(store.records) && !Expired(old(store.records[k]), old(store.now))
      ensures k in old(store.records) ==>
        var w := old(store.records[k].value);
        && (r.Some? ==> r.value == w.value && w.remainingLife == old(w.remainingLife) + 1)
        && (r.None? ==> w.remainingLife == old(w.remainingLife))
      ensures Valid()
    {
      var found := store.Get(k);
      if found.Some? {
        var w := found.value;
        w.remainingLife := w.remainingLife + 1;
        r := Some(w.value);
      } else {
        r := None;
      }
    }

    /** A successful set followed by a get: the caller's value comes back,
        and the fresh wrapper has banked exactly one life. */
    method SetThenGet(k: string, value: V, lifespan: Ttl) returns (err: Option<PutError>, r: Option<V>, ghost w: LifeWrapper<V>)
      requires Valid()
      modifies store
      ensures err.None? <==> ValidTtl(lifespan)
      ensures err.None? ==> r == Some(value) && w.remainingLife == 1 && k in store.records && store.records[k].value == w
      ensures Valid()
    {
      err, w := Set(k, value, lifespan);
      if err.None? {
        r := Get(k);
      } else {
        r := None;
      }
    }

    /** `_reIncarnation(key, value)`: while life is banked, spend one and
        put the same wrapper again for another lifespan. */
    method ReIncarnation(k: string, w: LifeWrapper<V>) returns (err: Option<PutError>)
      requires Valid()
      modifies store, w
      ensures old(w.remainingLife) > 0 ==>
        && w.remainingLife == old(w.remainingLife) - 1
        && store.Model() == CacheState.Put(old(store.Model()), k, w, w.lifespan, Fn(Reincarnate)).state
        && (err.None? <==> ValidTtl(w.lifespan))
      ensures old(w.remainingLife) == 0 ==>
        w.remainingLife == 0 && store.Model() == old(store.Model()) && err.None?
      ensures Valid()
    {
      err := None;
      if w.remainingLife > 0 {
        w.remainingLife := w.remainingLife - 1;
        var r := store.Put(k, w, w.lifespan, Fn(Reincarnate));
        if r.Err? {
          err := Some(r.error);
        }
      }
    }

    /** The host runs the pending, due timer `h` of the store: the
        reincarnation handler runs here, any other callback is handed back
        to the host. */
    method Expire(h: Handle) returns (inv: Option<Invocation<LifeWrapper<V>>>)
      requires Valid() && h in store.timers && store.timers[h].due <= store.now
      modifies store, store.timers[h].value
      ensures
        var t := old(store.timers[h]);
        var f := CacheState.Fire(old(store.Model()), h);
        if t.callback == Some(Reincarnate) then
          && inv.None?
          && (old(t.value.remainingLife) > 0 ==>
                && t.value.remainingLife == old(t.value.remainingLife) - 1
                && store.Model() == CacheState.Put(f.state, t.key, t.value, t.value.lifespan, Fn(Reincarnate)).state)
          && (old(t.value.remainingLife) == 0 ==> t.value.remainingLife == 0 && store.Model() == f.state)
        else
          inv == f.result && store.Model() == f.state
      ensures Valid()
    {
      var fired := store.Fire(h);
      if fired.Some? && fired.value.callback == Reincarnate {
        var _ := ReIncarnation(fired.value.key, fired.value.value);
        inv := None;
      } else {
        inv := fired;
      }
    }

    /** The armed timer of `k` runs, once its due time has come: banked
        life puts the key back for one more lifespan, no life left removes
        it. */
    method ExpireArmed(k: string, ghost w: LifeWrapper<V>)
      requires Valid() && Armed(store.Model(), k, w)
      modifies store, w
      ensures var due := old(store.timers[store.records[k].timeout.value].due);
        store.now == (if due > old(store.now) then due else old(store.now))
      ensures SameElsewhere(old(store.Model()), store.Model(), k)
      ensures old(w.remainingLife) > 0 ==>
        && Armed(store.Model(), k, w) && w.remainingLife == old(w.remainingLife) - 1
        && store.size == old(store.size)
        && store.timers[store.records[k].timeout.value].due == store.now + w.lifespan.ms
      ensures old(w.remainingLife) == 0 ==>
        k !in store.records && w.remainingLife == 0 && store.size == old(store.size) - 1
      ensures Valid()
    {
      var h := store.records[k].timeout.value;
      var due := store.timers[h].due;
      if due > store.now {
        store.Tick(due - store.now);
      }
      ghost var s := store.Model();
      if w.remainingLife > 0 {
        ReincarnationRearms(s, k, w, h);
      } else {
        LastExpiryRemoves(s, k, w, h);
      }
      var _ := Expire(h);
    }

    /** Left alone, an armed key whose wrapper has banked `n` lives expires
        `n + 1` times: each expiry but the last puts it back for one more
        lifespan, the last one removes it, and no other key is touched. The
        first expiry is when the armed timer is due (or now, if that is
        past), the last one `n` lifespans later. */
    method Drain(k: string, ghost w: LifeWrapper<V>) returns (expiries: nat)
      requires Valid() && Armed(store.Model(), k, w)
      modifies store, w
      ensures expiries == old(w.remainingLife) + 1 && w.remainingLife == 0
      ensures k !in store.records && store.size == old(store.size) - 1
      ensures SameElsewhere(old(store.Model()), store.Model(), k)
      ensures var due := old(store.timers[store.records[k].timeout.value].due);
        store.now == (if due > old(store.now) then due else old(store.now)) + old(w.remainingLife) * w.lifespan.ms
      ensures Valid()
    {
      ghost var due0 := store.timers[store.records[k].timeout.value].due;
      ghost var first := if due0 > store.now then due0 else store.now;
      ghost var span := w.lifespan.ms;
      expiries := 0;
      while k in store.records
        invariant Valid()
        invariant k in store.records ==> Armed(store.Model(), k, w) && expiries + w.remainingLife == old(w.remainingLife)
        invariant k !in store.records ==> expiries == old(w.remainingLife) + 1 && w.remainingLife == 0
        invariant store.size == (if k in store.records then old(store.size) else old(store.size) - 1)
        invariant SameElsewhere(old(store.Model()), store.Model(), k)
        invariant expiries == 0 ==> store.now == old(store.now) && k in store.records
        invariant expiries == 0 ==> store.timers[store.records[k].timeout.value].due == due0
        invariant expiries > 0 ==> store.now == first + (expiries - 1) * span
        invariant expiries > 0 && k in store.records ==> store.timers[store.records[k].timeout.value].due == store.now + span
        decreases w.remainingLife + (if k in store.records then 1 else 0)
      {
        ExpireArmed(k, w);
        assert store.now == first + expiries * span by {
          if expiries > 0 {
            assert (expiries - 1) * span + span == expiries * span;
          }
        }
        expiries := expiries + 1;
      }
    }
  }
}
