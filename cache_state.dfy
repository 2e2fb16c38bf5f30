/** The expiring store of index.js as a state machine: one function per
    operation, from the state before the call to the state after it and
    what the call returns. The class in cache.dfy is proved to follow it. */
module CacheState {
  import opened Host

  /** One entry of `_cache`: `{value, expire, timeout}`. `expire` is None
      where the source holds NaN (no ttl), `timeout` None where it holds
      undefined. */
  datatype Record<V> = Record(value: V, expire: Option<int>, timeout: Option<Handle>)

  /** A pending setTimeout: the key its closure deletes, when it is due,
      the value and callback the closure captured. */
  datatype Timer<V> = Timer(key: string, due: int, value: V, callback: Option<Callback>)

  /** `timeoutCallback(key, value)`, the call a fired timer hands back to
      the host. */
  datatype Invocation<V> = Invocation(callback: Callback, key: string, value: V)

  /** The closure state of one `Cache` instance, plus the clock and the
      pending-timer table of the host. `order` is the iteration order of
      `_cache`. */
  datatype State<V> = State(
    records: map<string, Record<V>>,
    order: seq<string>,
    size: int,
    hits: nat,
    misses: nat,
    debug: bool,
    now: int,
    timers: map<Handle, Timer<V>>,
    nextHandle: Handle)

  /** A state and what the operation returns. */
  datatype Step<V, R> = Step(state: State<V>, result: R)

  /** A record of an export: key, value and expiry, the timer dropped. */
  datatype Entry<V> = Entry(key: string, value: V, expire: Option<int>)

  /** The state invariant: `order` lists the keys of `records` once each,
      and every handle in use is below the next one setTimeout will give. */
  ghost predicate WF<V>(s: State<V>) {
    && Distinct(s.order)
    && (forall k :: k in s.records <==> k in s.order)
    && (forall h :: h in s.timers ==> h < s.nextHandle)
    && (forall k :: k in s.records && s.records[k].timeout.Some? ==> s.records[k].timeout.value < s.nextHandle)
  }

  /** `new Cache()` at time `now`. */
  function Empty<V>(now: int): (s: State<V>)
    ensures WF(s) && s.records == map[] && s.size == 0 && s.timers == map[]
    ensures s.hits == 0 && s.misses == 0 && !s.debug && s.now == now
  {
    State(map[], [], 0, 0, 0, false, now, map[], 0)
  }

  /** The test `get` and `del` apply: a finite expiry already in the past.
      A record due exactly now is still live. */
  predicate Expired<V>(r: Record<V>, now: int): (b: bool)
    // del's test is the negation of get's `isNaN(expire) || expire >= now`
    ensures b <==> !(r.expire.None? || r.expire.value >= now)
    ensures r.expire == Some(now) ==> !b
  {
    r.expire.Some? && r.expire.value < now
  }

  /** put accepts a ttl exactly when its guard does not throw: undefined
      passes, a non-number, NaN or a ttl of at most 0 throws. */
  predicate ValidTtl(time: Ttl): (ok: bool)
    ensures ok <==> !(time.NotANumber? || (time.Ms? && time.ms <= 0))
  {
    time.NoTtl? || (time.Ms? && time.ms > 0)
  }

  function CallbackOf(cb: CallbackArg): Option<Callback> {
    if cb.Fn? then Some(cb.f) else None
  }

  /** `_del(key)`: decrements the size and deletes the key, whether or not
      it is present. */
  function Drop<V>(s: State<V>, k: string): (t: State<V>)
    ensures t.size == s.size - 1
    ensures t.records.Keys == s.records.Keys - {k}
    ensures t.order == RemoveKey(s.order, k)
    ensures forall j :: j in t.records ==> t.records[j] == s.records[j]
    ensures t.timers == s.timers && t.now == s.now && t.nextHandle == s.nextHandle
    ensures t.hits == s.hits && t.misses == s.misses && t.debug == s.debug
    ensures WF(s) ==> WF(t)
  {
    s.(size := s.size - 1, records := s.records - {k}, order := RemoveKey(s.order, k))
  }

  /** `put(key, value, time, timeoutCallback)`. */
  function Put<V>(s: State<V>, k: string, v: V, time: Ttl, cb: CallbackArg): (r: Step<V, Result<V, PutError>>)
    // the argument checks, in the source's order, and no effect when one fails
    ensures !ValidTtl(time) ==> r == Step(s, Err(TimeoutNotPositive))
    ensures ValidTtl(time) && cb.NotAFunction? ==> r == Step(s, Err(CallbackNotFunction))
    ensures ValidTtl(time) && !cb.NotAFunction? ==> r.result == Ok(v)
    ensures r.result.Ok? ==>
      var t := r.state;
      // the key now holds the value; no other key changes
      && k in t.records && t.records[k].value == v
      && (forall j :: j != k ==> (j in t.records <==> j in s.records))
      && (forall j :: j != k && j in s.records ==> t.records[j] == s.records[j])
      // only a new key counts
      && t.size == (if k in s.records then s.size else s.size + 1)
      // a new key goes last in the key order
      && t.order == (if k in s.records then s.order else s.order + [k])
      // the overwritten record's timer is cancelled
      && (WF(s) && k in s.records && s.records[k].timeout.Some? ==> s.records[k].timeout.value !in t.timers)
      // no ttl: no expiry and no timer armed
      && (time.NoTtl? ==> t.records[k].expire.None? && t.records[k].timeout.None? && t.timers.Keys <= s.timers.Keys)
      // a ttl: expiry at now + ttl and one fresh timer that captures key, value and callback
      && (time.Ms? ==>
            && t.records[k].expire == Some(s.now + time.ms)
            && t.records[k].timeout == Some(s.nextHandle)
            && (WF(s) ==> s.nextHandle !in s.timers)
            && s.nextHandle in t.timers
            && t.timers[s.nextHandle] == Timer(k, s.now + time.ms, v, CallbackOf(cb))
            && t.timers.Keys - {s.nextHandle} <= s.timers.Keys)
      && t.hits == s.hits && t.misses == s.misses && t.debug == s.debug && t.now == s.now
    ensures WF(s) ==> WF(r.state)
  {
    if !ValidTtl(time) then Step(s, Err(TimeoutNotPositive))
    else if cb.NotAFunction? then Step(s, Err(CallbackNotFunction))
    else Step(Store(s, k, v, time, cb), Ok(v))
  }

  /** What put does once its arguments pass the checks: cancel the old
      timer or count the new key, then store the record and arm its timer. */
  function Store<V>(s: State<V>, k: string, v: V, time: Ttl, cb: CallbackArg): (t: State<V>)
    ensures k in t.records && t.records[k].value == v
    ensures t.records.Keys == s.records.Keys + {k}
    ensures forall j :: j != k && j in s.records ==> t.records[j] == s.records[j]
    ensures t.size == (if k in s.records then s.size else s.size + 1)
    ensures t.order == (if k in s.records then s.order else s.order + [k])
    ensures t.hits == s.hits && t.misses == s.misses && t.debug == s.debug && t.now == s.now
  {
    var s1 :=
      if k in s.records then s.(timers := Cancel(s.timers, s.records[k].timeout))
      else s.(size := s.size + 1, order := s.order + [k]);
    if time.Ms? then
      s1.(timers := s1.timers[s1.nextHandle := Timer(k, s1.now + time.ms, v, CallbackOf(cb))],
          nextHandle := s1.nextHandle + 1,
          records := s1.records[k := Record(v, Some(s1.now + time.ms), Some(s1.nextHandle))])
    else
      s1.(records := s1.records[k := Record(v, None, None)])
  }

  /** `get(key)`. */
  function Get<V>(s: State<V>, k: string): (r: Step<V, Option<V>>)
    ensures r.result.Some? <==> k in s.records && !Expired(s.records[k], s.now)
    ensures r.result.Some? ==> r.result.value == s.records[k].value
    // a hit changes nothing but the hit counter, and that only in debug mode
    ensures r.result.Some? ==> r.state == s.(hits := if s.debug then s.hits + 1 else s.hits)
    // an absent key changes nothing but the miss counter, and that only in debug mode
    ensures k !in s.records ==> r.state == s.(misses := if s.debug then s.misses + 1 else s.misses)
    // an expired key is removed and counted, but its timer stays pending
    ensures k in s.records && Expired(s.records[k], s.now) ==>
      && r.state.records.Keys == s.records.Keys - {k}
      && r.state.order == RemoveKey(s.order, k)
      && (forall j :: j in r.state.records ==> r.state.records[j] == s.records[j])
      && r.state.size == s.size - 1
      && r.state.timers == s.timers && r.state.nextHandle == s.nextHandle
      && r.state.misses == (if s.debug then s.misses + 1 else s.misses)
      && r.state.hits == s.hits && r.state.debug == s.debug && r.state.now == s.now
    ensures WF(s) ==> WF(r.state)
  {
    if k in s.records then
      if !Expired(s.records[k], s.now) then
        Step(s.(hits := if s.debug then s.hits + 1 else s.hits), Some(s.records[k].value))
      else
        Step(Drop(s.(misses := if s.debug then s.misses + 1 else s.misses), k), None)
    else
      Step(s.(misses := if s.debug then s.misses + 1 else s.misses), None)
  }

  /** `del(key)`. */
  function Del<V>(s: State<V>, k: string): (r: Step<V, bool>)
    ensures r.result <==> k in s.records && !Expired(s.records[k], s.now)
    // success: timer cancelled, key removed, size decremented; no callback is involved
    ensures r.result ==>
      && r.state.records.Keys == s.records.Keys - {k}
      && r.state.order == RemoveKey(s.order, k)
      && r.state.size == s.size - 1
      && r.state.timers == Cancel(s.timers, s.records[k].timeout)
      && r.state.debug == s.debug && r.state.nextHandle == s.nextHandle
    // a missing key: no effect
    ensures k !in s.records ==> r.state == s
    // a present but expired key: its timer is cancelled and the record stays
    ensures k in s.records && Expired(s.records[k], s.now) ==>
      r.state == s.(timers := Cancel(s.timers, s.records[k].timeout))
    ensures r.state.hits == s.hits && r.state.misses == s.misses && r.state.now == s.now
    ensures forall j :: j != k && j in s.records ==> j in r.state.records && r.state.records[j] == s.records[j]
    ensures WF(s) ==> WF(r.state)
  {
    if k in s.records then
      var s1 := s.(timers := Cancel(s.timers, s.records[k].timeout));
      if Expired(s.records[k], s.now) then Step(s1, false)
      else Step(Drop(s1, k), true)
    else
      Step(s, false)
  }

  /** The timers the records of a map point at. */
  function TimeoutsOf<V>(records: map<string, Record<V>>): set<Handle> {
    set k | k in records && records[k].timeout.Some? :: records[k].timeout.value
  }

  /** `clear()`. */
  function Clear<V>(s: State<V>): (t: State<V>)
    ensures t.records == map[] && t.order == [] && t.size == 0
    // every record's timer is cancelled; a timer no record points at stays
    ensures forall k :: k in s.records && s.records[k].timeout.Some? ==> s.records[k].timeout.value !in t.timers
    ensures forall h :: h in s.timers && h !in TimeoutsOf(s.records) ==> h in t.timers && t.timers[h] == s.timers[h]
    ensures t.timers.Keys <= s.timers.Keys
    // the counters reset only in debug mode
    ensures t.hits == (if s.debug then 0 else s.hits) && t.misses == (if s.debug then 0 else s.misses)
    ensures t.debug == s.debug && t.now == s.now && t.nextHandle == s.nextHandle
    ensures WF(s) ==> WF(t)
  {
    s.(timers := s.timers - TimeoutsOf(s.records), records := map[], order := [], size := 0,
       hits := if s.debug then 0 else s.hits, misses := if s.debug then 0 else s.misses)
  }

  /** The timer `h` runs: its closure calls `_del(key)` and then, when a
      callback was given, that callback with the key and the value it
      captured at put. The host only runs a timer that is pending and due. */
  function Fire<V>(s: State<V>, h: Handle): (r: Step<V, Option<Invocation<V>>>)
    requires h in s.timers && s.timers[h].due <= s.now
    ensures var t := s.timers[h];
      && r.state.records.Keys == s.records.Keys - {t.key}
      && r.state.order == RemoveKey(s.order, t.key)
      && r.state.size == s.size - 1
      && r.state.timers == s.timers - {h}
      && (r.result.Some? <==> t.callback.Some?)
      && (r.result.Some? ==> r.result.value == Invocation(t.callback.value, t.key, t.value))
    ensures forall j :: j in r.state.records ==> r.state.records[j] == s.records[j]
    ensures r.state.hits == s.hits && r.state.misses == s.misses && r.state.now == s.now
    ensures r.state.debug == s.debug && r.state.nextHandle == s.nextHandle
    ensures WF(s) ==> WF(r.state)
  {
    var t := s.timers[h];
    var inv := if t.callback.Some? then Some(Invocation(t.callback.value, t.key, t.value)) else None;
    Step(Drop(s.(timers := s.timers - {h}), t.key), inv)
  }

  /** The clock moves forward. */
  function Tick<V>(s: State<V>, dt: nat): (t: State<V>)
    ensures t.now == s.now + dt && t == s.(now := t.now)
    ensures WF(s) ==> WF(t)
  {
    s.(now := s.now + dt)
  }

  /** `debug(bool)`: only the flag changes; the counters are not reset. */
  function SetDebug<V>(s: State<V>, b: bool): (t: State<V>)
    ensures t.debug == b && t == s.(debug := b)
    ensures WF(s) ==> WF(t)
  {
    s.(debug := b)
  }

  /** `record.expire || 'NaN'`: NaN and 0 are both falsy, so an expiry of
      exactly 0 is exported as "no expiry". */
  function ExportExpire(e: Option<int>): (r: Option<int>)
    ensures r == (if e == Some(0) then None else e)
  {
    if e.Some? && e.value == 0 then None else e
  }

  /** The export entries for the keys `ks`, in that order. */
  function ExportKeys<V>(records: map<string, Record<V>>, ks: seq<string>): (es: seq<Entry<V>>)
    requires forall k :: k in ks ==> k in records
    ensures |es| == |ks|
    ensures forall i :: 0 <= i < |ks| ==>
      es[i] == Entry(ks[i], records[ks[i]].value, ExportExpire(records[ks[i]].expire))
  {
    if ks == [] then []
    else
      var n := |ks| - 1;
      ExportKeys(records, ks[..n]) + [Entry(ks[n], records[ks[n]].value, ExportExpire(records[ks[n]].expire))]
  }

  /** `exportJson()` before the text encoding: every record in key order. */
  function Export<V>(s: State<V>): (es: seq<Entry<V>>)
    requires WF(s)
    ensures |es| == |s.order|
  {
    ExportKeys(s.records, s.order)
  }

  /** The ttl importJson re-puts a record with: `expire - currTime`, or no
      ttl when the record has no expiry (NaN minus a number). */
  function RemainingTtl(e: Option<int>, currTime: int): (r: Ttl)
    ensures e.None? ==> r.NoTtl?
    ensures e.Some? ==> r == Ms(e.value - currTime)
    // put accepts it exactly when the record has time left or no expiry
    ensures ValidTtl(r) <==> e.None? || e.value > currTime
  {
    if e.Some? then Ms(e.value - currTime) else NoTtl
  }

  /** One pass of importJson's loop. */
  function ImportEntry<V>(s: State<V>, e: Entry<V>, skip: bool, currTime: int): (t: State<V>)
    ensures skip && e.key in s.records ==> t == s
    // only the entry's key can change
    ensures forall j :: j != e.key ==> (j in t.records <==> j in s.records)
    ensures forall j :: j != e.key && j in s.records ==> t.records[j] == s.records[j]
    ensures t.hits == s.hits && t.misses == s.misses && t.now == s.now && t.debug == s.debug
    ensures WF(s) ==> WF(t)
  {
    if skip && e.key in s.records then s
    else if e.expire.Some? && e.expire.value - currTime <= 0 then Del(s, e.key).state
    else Put(s, e.key, e.value, RemainingTtl(e.expire, currTime), NoCallback).state
  }

  /** importJson's loop over the first |es| records. */
  function ImportFrom<V>(s: State<V>, es: seq<Entry<V>>, skip: bool, currTime: int): (t: State<V>)
    ensures WF(s) ==> WF(t)
    decreases |es|
  {
    if es == [] then s
    else
      var n := |es| - 1;
      ImportEntry(ImportFrom(s, es[..n], skip, currTime), es[n], skip, currTime)
  }

  /** One more pass of importJson's loop. */
  lemma ImportFromNext<V>(s: State<V>, es: seq<Entry<V>>, i: nat, skip: bool, currTime: int)
    requires i < |es|
    ensures ImportFrom(s, es[..i + 1], skip, currTime) == ImportEntry(ImportFrom(s, es[..i], skip, currTime), es[i], skip, currTime)
  {
    assert es[..i + 1][..i] == es[..i];
  }

  /** `importJson(json, {skipDuplicates: skip})` over already parsed
      records: the time is read once, and the result is `size()`. */
  function Import<V>(s: State<V>, es: seq<Entry<V>>, skip: bool): (r: Step<V, int>)
    ensures r.result == r.state.size
    ensures WF(s) ==> WF(r.state)
  {
    var t := ImportFrom(s, es, skip, s.now);
    Step(t, t.size)
  }
}
