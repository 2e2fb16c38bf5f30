/** The older store of tinycache.js as a state machine, and what is proved
    about it: no argument checks, no size counter, and `del`/`clear` that
    leave the timers armed. */
module TinyState {
  import opened Host

  /** One entry of `self.cache`: `{value, expire, timeout}`. */
  datatype TRecord<V> = TRecord(value: V, expire: Option<int>, timeout: Option<Handle>)

  /** A pending setTimeout whose closure calls `del(key)`. */
  datatype TTimer = TTimer(key: string, due: int)

  datatype TState<V> = TState(
    records: map<string, TRecord<V>>,
    order: seq<string>,
    hits: nat,
    misses: nat,
    debug: bool,
    now: int,
    timers: map<Handle, TTimer>,
    nextHandle: Handle)

  datatype TStep<V, R> = TStep(state: TState<V>, result: R)

  ghost predicate WF<V>(s: TState<V>) {
    && Distinct(s.order)
    && (forall k :: k in s.records <==> k in s.order)
    && (forall h :: h in s.timers ==> h < s.nextHandle)
    && (forall k :: k in s.records && s.records[k].timeout.Some? ==> s.records[k].timeout.value < s.nextHandle)
  }

  /** `new TinyCache()` at time `now`. */
  function Empty<V>(now: int): (s: TState<V>)
    ensures WF(s) && s.records == map[] && s.timers == map[]
    ensures s.hits == 0 && s.misses == 0 && !s.debug && s.now == now
  {
    TState(map[], [], 0, 0, false, now, map[], 0)
  }

  /** `!(isNaN(data.expire) || data.expire >= now())`. */
  predicate Expired<V>(r: TRecord<V>, now: int): (b: bool)
    ensures b <==> !(r.expire.None? || r.expire.value >= now)
    ensures r.expire == Some(now) ==> !b
  {
    r.expire.Some? && r.expire.value < now
  }

  /** `time + now()`: a number gives a finite expiry, whatever its sign;
      undefined and NaN give NaN. */
  function ExpireOf(time: Ttl, now: int): (r: Option<int>)
    // `!isNaN(expire)` holds exactly for a number
    ensures r.Some? <==> time.Ms?
    ensures r.Some? ==> r.value - now == time.ms
  {
    if time.Ms? then Some(now + time.ms) else None
  }

  /** `put(key, value, time)`. */
  function Put<V>(s: TState<V>, k: string, v: V, time: Ttl): (t: TState<V>)
    ensures k in t.records && t.records[k].value == v && t.records[k].expire == ExpireOf(time, s.now)
    ensures forall j :: j != k ==> (j in t.records <==> j in s.records)
    ensures forall j :: j != k && j in s.records ==> t.records[j] == s.records[j]
    // the replaced record's timer is cancelled
    ensures WF(s) && k in s.records && s.records[k].timeout.Some? ==> s.records[k].timeout.value !in t.timers
    // a timer is armed exactly when the expiry is finite
    ensures time.Ms? <==> t.records[k].timeout.Some?
    ensures time.Ms? ==>
      && t.records[k].timeout == Some(s.nextHandle)
      && s.nextHandle in t.timers && t.timers[s.nextHandle] == TTimer(k, s.now + time.ms)
    // no other timer changes
    ensures forall h :: h in t.timers && h != s.nextHandle ==> h in s.timers && t.timers[h] == s.timers[h]
    ensures WF(s) ==> forall h :: h in s.timers && (k !in s.records || Some(h) != s.records[k].timeout) ==>
      h in t.timers && t.timers[h] == s.timers[h]
    ensures t.hits == s.hits && t.misses == s.misses && t.debug == s.debug && t.now == s.now
    // a new key goes last in the key order
    ensures t.order == (if k in s.records then s.order else s.order + [k])
    ensures WF(s) ==> WF(t)
  {
    var timers := if k in s.records then Cancel(s.timers, s.records[k].timeout) else s.timers;
    var order := if k in s.records then s.order else s.order + [k];
    if time.Ms? then
      s.(timers := timers[s.nextHandle := TTimer(k, s.now + time.ms)],
         nextHandle := s.nextHandle + 1,
         records := s.records[k := TRecord(v, Some(s.now + time.ms), Some(s.nextHandle))],
         order := order)
    else
      s.(timers := timers, records := s.records[k := TRecord(v, None, None)], order := order)
  }

  /** `del(key)`: deletes the key and nothing else; the timer stays armed. */
  function Del<V>(s: TState<V>, k: string): (t: TState<V>)
    ensures t.records.Keys == s.records.Keys - {k}
    ensures t.order == RemoveKey(s.order, k)
    ensures forall j :: j in t.records ==> t.records[j] == s.records[j]
    ensures t.timers == s.timers && t.nextHandle == s.nextHandle
    ensures t.hits == s.hits && t.misses == s.misses && t.debug == s.debug && t.now == s.now
    ensures WF(s) ==> WF(t)
  {
    s.(records := s.records - {k}, order := RemoveKey(s.order, k))
  }

  /** `clear()`: a new empty object; every timer stays armed. */
  function Clear<V>(s: TState<V>): (t: TState<V>)
    ensures t.records == map[]
    ensures t.timers == s.timers && t.nextHandle == s.nextHandle
    ensures t.hits == s.hits && t.misses == s.misses && t.debug == s.debug && t.now == s.now
    ensures WF(s) ==> WF(t)
  {
    s.(records := map[], order := [])
  }

  /** `get(key)`. */
  function Get<V>(s: TState<V>, k: string): (r: TStep<V, Option<V>>)
    ensures r.result.Some? <==> k in s.records && !Expired(s.records[k], s.now)
    ensures r.result.Some? ==>
      && r.result.value == s.records[k].value
      && r.state == s.(hits := if s.debug then s.hits + 1 else s.hits)
    // an expired key: a miss in debug mode, deleted; its timer stays armed
    ensures k in s.records && Expired(s.records[k], s.now) ==>
      r.state == Del(s, k).(misses := if s.debug then s.misses + 1 else s.misses)
    // an absent key is not even counted as a miss
    ensures k !in s.records ==> r.state == s
    ensures WF(s) ==> WF(r.state)
  {
    if k in s.records then
      if !Expired(s.records[k], s.now) then
        TStep(s.(hits := if s.debug then s.hits + 1 else s.hits), Some(s.records[k].value))
      else
        TStep(Del(s.(misses := if s.debug then s.misses + 1 else s.misses), k), None)
    else
      TStep(s, None)
  }

  /** The timer `h` runs `del(key)`, whatever the key now holds. */
  function Fire<V>(s: TState<V>, h: Handle): (t: TState<V>)
    requires h in s.timers && s.timers[h].due <= s.now
    ensures t.records.Keys == s.records.Keys - {s.timers[h].key}
    ensures t.order == RemoveKey(s.order, s.timers[h].key)
    ensures forall j :: j in t.records ==> t.records[j] == s.records[j]
    ensures t.timers == s.timers - {h}
    ensures t.hits == s.hits && t.misses == s.misses && t.now == s.now
    ensures t.debug == s.debug && t.nextHandle == s.nextHandle
    ensures WF(s) ==> WF(t)
  {
    Del(s.(timers := s.timers - {h}), s.timers[h].key)
  }

  function Tick<V>(s: TState<V>, dt: nat): (t: TState<V>)
    ensures t.now == s.now + dt && t == s.(now := t.now)
    ensures WF(s) ==> WF(t)
  {
    s.(now := s.now + dt)
  }

  /** One pass of size()'s loop: get on the key `k`, and one more when it
      answers. */
  function SizeNext<V>(p: TStep<V, nat>, k: string): (r: TStep<V, nat>)
    ensures r.result == p.result || r.result == p.result + 1
  {
    var g := Get(p.state, k);
    TStep(g.state, p.result + if g.result.Some? then 1 else 0)
  }

  /** `size()`'s loop over the first |ks| keys: `get` on each, counting the
      non-null answers. */
  function SizeFrom<V>(s: TState<V>, ks: seq<string>): (r: TStep<V, nat>)
    ensures r.result <= |ks|
    decreases |ks|
  {
    if ks == [] then TStep(s, 0)
    else
      var n := |ks| - 1;
      SizeNext(SizeFrom(s, ks[..n]), ks[n])
  }

  /** One more key for the loop of size(). */
  lemma SizeFromNext<V>(s: TState<V>, ks: seq<string>, i: nat)
    requires i < |ks|
    ensures SizeFrom(s, ks[..i + 1]) == SizeNext(SizeFrom(s, ks[..i]), ks[i])
  {
    assert ks[..i + 1][..i] == ks[..i];
  }

  /** `size()`. */
  function Size<V>(s: TState<V>): (r: TStep<V, nat>)
    ensures r.result <= |s.order|
  {
    SizeFrom(s, s.order)
  }

  /** `memsize()`. */
  function MemSize<V>(s: TState<V>): (n: nat)
    requires WF(s)
    ensures n == |s.records|
  {
    DistinctCard(s.order, s.records.Keys);
    |s.order|
  }

  /** The records still live at time `now`. */
  function LiveOnly<V>(records: map<string, TRecord<V>>, now: int): (m: map<string, TRecord<V>>)
    ensures forall k :: k in m <==> k in records && !Expired(records[k], now)
    ensures forall k :: k in m ==> m[k] == records[k]
  {
    map k | k in records && !Expired(records[k], now) :: records[k]
  }

  /** The keys among `ks` whose records are live. */
  ghost function LiveKeys<V>(records: map<string, TRecord<V>>, ks: seq<string>, now: int): set<string> {
    set k | k in ks && k in records && !Expired(records[k], now)
  }

  /** The records left once the keys `ks` have been scanned. */
  function Scanned<V>(records: map<string, TRecord<V>>, ks: seq<string>, now: int): map<string, TRecord<V>> {
    map k | k in records && (k !in ks || !Expired(records[k], now)) :: records[k]
  }

  lemma ScannedStep<V>(records: map<string, TRecord<V>>, ks: seq<string>, now: int)
    requires ks != [] && ks[|ks| - 1] in records
    ensures var x := ks[|ks| - 1];
      Scanned(records, ks, now) ==
        if Expired(records[x], now) then Scanned(records, ks[..|ks| - 1], now) - {x}
        else Scanned(records, ks[..|ks| - 1], now)
  {
    var x := ks[|ks| - 1];
    assert forall k :: k in ks <==> k in ks[..|ks| - 1] || k == x;
  }

  /** What the loop of size() does to the map after the keys `ks`: the expired
      ones among them are deleted, nothing else changes. */
  lemma {:induction false} SizeFromRecords<V>(s: TState<V>, ks: seq<string>)
    requires WF(s) && Distinct(ks) && (forall k :: k in ks ==> k in s.records)
    ensures var t := SizeFrom(s, ks).state;
      && WF(t)
      && t.records == Scanned(s.records, ks, s.now)
      && t.timers == s.timers && t.now == s.now && t.debug == s.debug
    decreases |ks|
  {
    if ks != [] {
      var n := |ks| - 1;
      assert Distinct(ks[..n]);
      assert ks[n] !in ks[..n];
      SizeFromRecords(s, ks[..n]);
      ScannedStep(s.records, ks, s.now);
    }
  }

  lemma LiveKeysStep<V>(records: map<string, TRecord<V>>, ks: seq<string>, now: int)
    requires ks != [] && ks[|ks| - 1] in records && ks[|ks| - 1] !in ks[..|ks| - 1]
    ensures var x := ks[|ks| - 1]; var before := LiveKeys(records, ks[..|ks| - 1], now);
      |LiveKeys(records, ks, now)| == if Expired(records[x], now) then |before| else |before| + 1
  {
    var x := ks[|ks| - 1];
    var before := LiveKeys(records, ks[..|ks| - 1], now);
    assert forall k :: k in ks <==> k in ks[..|ks| - 1] || k == x;
    if Expired(records[x], now) {
      assert LiveKeys(records, ks, now) == before;
    } else {
      assert LiveKeys(records, ks, now) == before + {x};
    }
  }

  /** How the loop of size() counts after the keys `ks`: one for each live key,
      each a hit or a miss in debug mode. */
  lemma {:induction false} SizeFromCount<V>(s: TState<V>, ks: seq<string>)
    requires WF(s) && Distinct(ks) && (forall k :: k in ks ==> k in s.records)
    ensures var r := SizeFrom(s, ks);
      && r.result == |LiveKeys(s.records, ks, s.now)|
      && r.state.hits == s.hits + (if s.debug then r.result else 0)
      && r.state.misses == s.misses + (if s.debug then |ks| - r.result else 0)
    decreases |ks|
  {
    if ks != [] {
      var n := |ks| - 1;
      assert Distinct(ks[..n]);
      assert ks[n] !in ks[..n];
      SizeFromCount(s, ks[..n]);
      SizeFromRecords(s, ks[..n]);
      LiveKeysStep(s.records, ks, s.now);
    }
  }

  /** `size()` never exceeds the memsize() just before it, leaves exactly the
      live records, and then agrees with memsize(). */
  lemma SizeEffect<V>(s: TState<V>)
    requires WF(s)
    ensures var r := Size(s);
      && WF(r.state)
      && r.result <= MemSize(s)
      && r.state.records == LiveOnly(s.records, s.now)
      && (forall k :: k in r.state.records ==> !Expired(r.state.records[k], r.state.now))
      && r.result == MemSize(r.state)
      && r.state.timers == s.timers
      && r.state.hits == s.hits + (if s.debug then r.result else 0)
      && r.state.misses == s.misses + (if s.debug then MemSize(s) - r.result else 0)
  {
    SizeFromRecords(s, s.order);
    SizeFromCount(s, s.order);
    var r := Size(s);
    var live := LiveKeys(s.records, s.order, s.now);
    assert r.state.records == LiveOnly(s.records, s.now);
    assert r.state.records.Keys == live;
    assert live <= s.records.Keys;
  }

  /** A stale timer: put with a ttl, del, put again without one; when the
      first timer comes due it deletes the second record. */
  lemma StaleTimerDeletesReput<V>(s: TState<V>, k: string, v: V, w: V, ttl: nat)
    ensures var h := s.nextHandle;
      var s1 := Del(Put(s, k, v, Ms(ttl)), k);
      var s2 := Tick(Put(s1, k, w, NoTtl), ttl);
      && k in s2.records && s2.records[k].value == w && s2.records[k].expire.None?
      && h in s2.timers && s2.timers[h].due <= s2.now
      && k !in Fire(s2, h).records
  {
  }

  /** Each timer belongs to the record it would delete. */
  ghost predicate TimersOwned<V>(s: TState<V>) {
    forall h :: h in s.timers ==> s.timers[h].key in s.records && s.records[s.timers[h].key].timeout == Some(h)
  }

  /** When every timer belongs to its record, put on a key leaves at most one
      pending timer for that key: the new record's. */
  lemma PutLeavesOneTimer<V>(s: TState<V>, k: string, v: V, time: Ttl)
    requires WF(s) && TimersOwned(s)
    ensures var t := Put(s, k, v, time);
      forall h :: h in t.timers && t.timers[h].key == k ==> t.records[k].timeout == Some(h)
  {
  }
}
