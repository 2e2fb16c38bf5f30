/** Properties of the expiring store of index.js, proved about the state
    machine in cache_state.dfy. */
module CacheLaws {
  import opened Host
  import opened CacheState

  /** The steady state: the size counter equals the number of keys, every
      finite-ttl record has exactly one pending timer, due at its expiry,
      every pending timer belongs to the record it would delete, and no
      record is past its expiry. Every operation keeps it, except that the
      clock must not pass a pending timer's due time before that timer runs
      (TickKeepsTidy). */
  ghost predicate Tidy<V>(s: State<V>) {
    && WF(s)
    && s.size == |s.records|
    && (forall k :: k in s.records ==> (s.records[k].expire.None? <==> s.records[k].timeout.None?))
    && (forall k :: k in s.records && s.records[k].timeout.Some? ==>
          && s.records[k].timeout.value in s.timers
          && s.timers[s.records[k].timeout.value].key == k
          && s.records[k].expire == Some(s.timers[s.records[k].timeout.value].due))
    && (forall h :: h in s.timers ==>
          s.timers[h].key in s.records && s.records[s.timers[h].key].timeout == Some(h))
    && (forall k :: k in s.records ==> !Expired(s.records[k], s.now))
  }

  /** `memsize()`: the number of keys the map holds. */
  function MemSize<V>(s: State<V>): (n: nat)
    requires WF(s)
    ensures n == |s.records|
  {
    DistinctCard(s.order, s.records.Keys);
    |s.order|
  }

  /** A new cache starts in the steady state. */
  lemma EmptyIsTidy<V>(now: int)
    ensures Tidy(Empty<V>(now))
  {
  }

  /** In the steady state `size()` and `memsize()` agree. */
  lemma TidySizeIsMemSize<V>(s: State<V>)
    requires Tidy(s)
    ensures s.size == MemSize(s)
  {
  }

  lemma MapAddCard<V>(m: map<string, V>, k: string, v: V)
    ensures |m[k := v]| == if k in m then |m| else |m| + 1
  {
    if k in m {
      assert m[k := v].Keys == m.Keys;
    } else {
      assert m[k := v].Keys == m.Keys + {k};
    }
  }

  lemma MapRemoveCard<V>(m: map<string, V>, t: map<string, V>, k: string)
    requires k in m && t.Keys == m.Keys - {k}
    ensures |t| == |m| - 1
  {
    assert |t.Keys| == |m.Keys| - 1;
  }

  lemma {:induction false} PutKeepsTidy<V>(s: State<V>, k: string, v: V, time: Ttl, cb: CallbackArg)
    requires Tidy(s)
    ensures Tidy(Put(s, k, v, time, cb).state)
  {
    if Put(s, k, v, time, cb).result.Ok? {
      PutRecords(s, k, v, time, cb);
      var cancelled := PutTimers(s, k, v, time, cb);
      var t := Put(s, k, v, time, cb).state;
      InsertKeepsTidy(s, t, k, t.records[k], cancelled);
    }
  }

  /** What a successful put does to the record map. */
  lemma PutRecords<V>(s: State<V>, k: string, v: V, time: Ttl, cb: CallbackArg)
    requires Put(s, k, v, time, cb).result.Ok?
    ensures var t := Put(s, k, v, time, cb).state; var rec := t.records[k];
      && t.records == s.records[k := rec]
      && |t.records| == (if k in s.records then |s.records| else |s.records| + 1)
      && (rec.expire.None? <==> rec.timeout.None?)
      && !Expired(rec, s.now)
  {
    var t := Put(s, k, v, time, cb).state;
    assert t.records == s.records[k := t.records[k]];
    MapAddCard(s.records, k, t.records[k]);
  }

  /** What a successful put does to the timer table. */
  lemma PutTimers<V>(s: State<V>, k: string, v: V, time: Ttl, cb: CallbackArg)
      returns (cancelled: map<Handle, Timer<V>>)
    requires WF(s) && Put(s, k, v, time, cb).result.Ok?
    ensures var t := Put(s, k, v, time, cb).state; var rec := t.records[k];
      && cancelled == (if k in s.records then Cancel(s.timers, s.records[k].timeout) else s.timers)
      && (rec.timeout.None? ==> t.timers == cancelled)
      && (rec.timeout.Some? ==>
            && rec.timeout.value == s.nextHandle
            && t.timers.Keys == cancelled.Keys + {s.nextHandle}
            && (forall h :: h in cancelled ==> t.timers[h] == cancelled[h])
            && t.timers[s.nextHandle].key == k
            && rec.expire == Some(t.timers[s.nextHandle].due))
  {
    cancelled := if k in s.records then Cancel(s.timers, s.records[k].timeout) else s.timers;
    if time.Ms? {
      assert Put(s, k, v, time, cb).state.timers ==
        cancelled[s.nextHandle := Timer(k, s.now + time.ms, v, CallbackOf(cb))];
    }
  }

  /** The timers after an insert, as InsertKeepsTidy requires them. */
  ghost predicate InsertedTimers<V>(s: State<V>, t: State<V>, k: string, rec: Record<V>, cancelled: map<Handle, Timer<V>>) {
    && cancelled == (if k in s.records then Cancel(s.timers, s.records[k].timeout) else s.timers)
    && t.records == s.records[k := rec]
    && (rec.timeout.None? ==> t.timers == cancelled)
    && (rec.timeout.Some? ==>
      && rec.timeout.value == s.nextHandle
      && t.timers.Keys == cancelled.Keys + {s.nextHandle}
      && (forall h :: h in cancelled ==> t.timers[h] == cancelled[h])
      && t.timers[s.nextHandle].key == k
      && rec.expire == Some(t.timers[s.nextHandle].due))
  }

  /** After an insert every pending timer still belongs to its record. */
  lemma InsertTimersOwned<V>(s: State<V>, t: State<V>, k: string, rec: Record<V>, cancelled: map<Handle, Timer<V>>)
    requires Tidy(s) && InsertedTimers(s, t, k, rec, cancelled)
    ensures forall h :: h in t.timers ==>
      t.timers[h].key in t.records && t.records[t.timers[h].key].timeout == Some(h)
  {
    forall h | h in t.timers
      ensures t.timers[h].key in t.records && t.records[t.timers[h].key].timeout == Some(h)
    {
      if h in cancelled {
        assert h in s.timers && t.timers[h] == s.timers[h];
        var j := s.timers[h].key;
        assert j in s.records && s.records[j].timeout == Some(h);
        assert j != k;
      }
    }
  }

  /** After an insert every record's timer is pending, for its key and due
      at its expiry. */
  lemma InsertRecordsArmed<V>(s: State<V>, t: State<V>, k: string, rec: Record<V>, cancelled: map<Handle, Timer<V>>)
    requires Tidy(s) && InsertedTimers(s, t, k, rec, cancelled)
    ensures forall j :: j in t.records && t.records[j].timeout.Some? ==>
      && t.records[j].timeout.value in t.timers
      && t.timers[t.records[j].timeout.value].key == j
      && t.records[j].expire == Some(t.timers[t.records[j].timeout.value].due)
  {
    forall j | j in t.records && t.records[j].timeout.Some?
      ensures t.records[j].timeout.value in t.timers
      ensures t.timers[t.records[j].timeout.value].key == j
      ensures t.records[j].expire == Some(t.timers[t.records[j].timeout.value].due)
    {
      if j != k {
        var hj := s.records[j].timeout.value;
        assert hj in s.timers && s.timers[hj].key == j;
        assert hj in cancelled;
      }
    }
  }

  /** A record stored under `k`, replacing (and cancelling) any earlier one
      and arming at most one fresh timer, keeps the steady state. */
  lemma InsertKeepsTidy<V>(s: State<V>, t: State<V>, k: string, rec: Record<V>, cancelled: map<Handle, Timer<V>>)
    requires Tidy(s) && WF(t) && InsertedTimers(s, t, k, rec, cancelled)
    requires t.size == |t.records| && t.now == s.now
    requires rec.expire.None? <==> rec.timeout.None?
    requires !Expired(rec, s.now)
    ensures Tidy(t)
  {
    InsertTimersOwned(s, t, k, rec, cancelled);
    InsertRecordsArmed(s, t, k, rec, cancelled);
  }

  /** In the steady state `get` never finds an expired record. */
  lemma {:induction false} GetKeepsTidy<V>(s: State<V>, k: string)
    requires Tidy(s)
    ensures Get(s, k).result == (if k in s.records then Some(s.records[k].value) else None)
    ensures Tidy(Get(s, k).state)
  {
  }

  /** In the steady state `del` succeeds exactly on the present keys. */
  lemma {:induction false} DelKeepsTidy<V>(s: State<V>, k: string)
    requires Tidy(s)
    ensures Del(s, k).result == (k in s.records)
    ensures Tidy(Del(s, k).state)
  {
    var t := Del(s, k).state;
    if k in s.records {
      MapRemoveCard(s.records, t.records, k);
      forall h | h in t.timers
        ensures t.timers[h].key in t.records && t.records[t.timers[h].key].timeout == Some(h)
      {
        assert h in s.timers;
      }
    }
  }

  lemma {:induction false} ClearKeepsTidy<V>(s: State<V>)
    requires Tidy(s)
    ensures Tidy(Clear(s))
  {
    var t := Clear(s);
    forall h | h in s.timers ensures h in TimeoutsOf(s.records) {
      var j := s.timers[h].key;
      assert j in s.records && s.records[j].timeout == Some(h);
    }
    assert t.timers == map[];
  }

  lemma {:induction false} FireKeepsTidy<V>(s: State<V>, h: Handle)
    requires Tidy(s) && h in s.timers && s.timers[h].due <= s.now
    ensures Tidy(Fire(s, h).state)
  {
    var k := s.timers[h].key;
    var t := Fire(s, h).state;
    MapRemoveCard(s.records, t.records, k);
    forall j | j in t.records && t.records[j].timeout.Some?
      ensures t.records[j].timeout.value in t.timers
    {
      assert s.records[j].timeout.value != h;
    }
  }

  /** The clock may advance up to the earliest pending due time. */
  lemma {:induction false} TickKeepsTidy<V>(s: State<V>, dt: nat)
    requires Tidy(s)
    requires forall h :: h in s.timers ==> s.now + dt <= s.timers[h].due
    ensures Tidy(Tick(s, dt))
  {
    forall k | k in s.records && s.records[k].expire.Some?
      ensures s.now + dt <= s.records[k].expire.value
    {
      assert s.records[k].timeout.Some?;
      assert s.records[k].timeout.value in s.timers;
    }
  }

  lemma {:induction false} ImportKeepsTidy<V>(s: State<V>, es: seq<Entry<V>>, skip: bool)
    requires Tidy(s)
    ensures Tidy(ImportFrom(s, es, skip, s.now))
    decreases |es|
  {
    if es != [] {
      var n := |es| - 1;
      ImportKeepsTidy(s, es[..n], skip);
      ImportFromKeepsClock(s, es[..n], skip, s.now);
      var u := ImportFrom(s, es[..n], skip, s.now);
      assert u.now == s.now;
      var e := es[n];
      if !(skip && e.key in u.records) {
        if e.expire.Some? && e.expire.value - s.now <= 0 {
          DelKeepsTidy(u, e.key);
        } else {
          PutKeepsTidy(u, e.key, e.value, RemainingTtl(e.expire, s.now), NoCallback);
        }
      }
    }
  }

  /** Outside the steady state the counter drifts: `get` of an expired key
      removes it without cancelling its timer, and when that timer runs,
      `_del` decrements the size a second time for the same key. */
  lemma ExpiredGetThenFireDecrementsTwice<V>(s: State<V>, k: string)
    requires WF(s) && k in s.records && Expired(s.records[k], s.now)
    requires s.records[k].timeout.Some? && s.records[k].timeout.value in s.timers
    requires s.timers[s.records[k].timeout.value].key == k
    requires s.timers[s.records[k].timeout.value].due <= s.now
    ensures var g := Get(s, k).state; var h := s.records[k].timeout.value;
      && h in g.timers && g.timers[h].due <= g.now
      && Fire(g, h).state.size == s.size - 2
      && |Fire(g, h).state.records| == |s.records| - 1
  {
    var g := Get(s, k).state;
    var h := s.records[k].timeout.value;
    MapRemoveCard(s.records, g.records, k);
    assert Fire(g, h).state.records.Keys == g.records.Keys;
  }

  /** A concrete run from an empty cache: after put('a', v, 1), two
      milliseconds, a get and the stale timer, `size()` is -1 while the map
      is empty. */
  lemma SizeGoesNegative<V>(v: V)
    ensures var s1 := Put(Empty<V>(0), "a", v, Ms(1), NoCallback).state;
            var s2 := Get(Tick(s1, 2), "a").state;
            && 0 in s2.timers && s2.timers[0].due <= s2.now
            && Fire(s2, 0).state.size == -1
            && Fire(s2, 0).state.records == map[]
  {
  }

  /** Right after a successful put, get returns the value put. */
  lemma PutThenGet<V>(s: State<V>, k: string, v: V, time: Ttl, cb: CallbackArg)
    requires Put(s, k, v, time, cb).result.Ok?
    ensures Get(Put(s, k, v, time, cb).state, k).result == Some(v)
  {
  }

  /** A record put without a ttl has no timer and is returned however far
      the clock moves. */
  lemma NoTtlNeverExpires<V>(s: State<V>, k: string, v: V, cb: CallbackArg, dt: nat)
    requires !cb.NotAFunction?
    ensures var t := Put(s, k, v, NoTtl, cb).state;
      && t.records[k].timeout.None?
      && Get(Tick(t, dt), k).result == Some(v)
  {
  }

  /** After a successful del, a second del returns false and changes nothing. */
  lemma DelTwice<V>(s: State<V>, k: string)
    requires Del(s, k).result
    ensures Del(Del(s, k).state, k) == Step(Del(s, k).state, false)
  {
  }

  /** The import keeps a record when it has no expiry or a positive
      remaining ttl. */
  predicate Kept(e: Option<int>, currTime: int) {
    e.None? || e.value - currTime > 0
  }

  function KeySet<V>(es: seq<Entry<V>>): set<string> {
    set i | 0 <= i < |es| :: es[i].key
  }

  lemma {:induction false} ImportFromKeepsClock<V>(s: State<V>, es: seq<Entry<V>>, skip: bool, ct: int)
    ensures ImportFrom(s, es, skip, ct).now == s.now
    decreases |es|
  {
    if es != [] {
      ImportFromKeepsClock(s, es[..|es| - 1], skip, ct);
    }
  }

  /** With skipDuplicates, every key the cache already held keeps its record. */
  lemma {:induction false} ImportSkipKeepsExisting<V>(s: State<V>, es: seq<Entry<V>>, ct: int)
    ensures forall k :: k in s.records ==>
      k in ImportFrom(s, es, true, ct).records && ImportFrom(s, es, true, ct).records[k] == s.records[k]
    decreases |es|
  {
    if es != [] {
      var n := |es| - 1;
      ImportSkipKeepsExisting(s, es[..n], ct);
    }
  }

  /** One import pass for a key the cache does not hold: a kept record
      arrives with its value and expiry, any other leaves the state as it
      was, and no other key changes. */
  lemma ImportEntryFresh<V>(u: State<V>, e: Entry<V>, skip: bool)
    requires e.key !in u.records
    ensures var r := ImportEntry(u, e, skip, u.now);
      && (Kept(e.expire, u.now) ==>
            e.key in r.records && r.records[e.key].value == e.value && r.records[e.key].expire == e.expire)
      && (!Kept(e.expire, u.now) ==> r == u)
      && (forall k :: k != e.key ==> (k in r.records <==> k in u.records))
      && (forall k :: k != e.key && k in u.records ==> r.records[k] == u.records[k])
  {
    if Kept(e.expire, u.now) {
      var r := Put(u, e.key, e.value, RemainingTtl(e.expire, u.now), NoCallback);
      assert r.result.Ok?;
    }
  }

  /** One import pass, not skipped, for a key the cache already holds. An
      entry with no time left goes through `del`: a live record leaves and
      the size drops by one; an expired one stays, its timer cancelled. A
      kept entry overwrites the record with its value and expiry, the size
      unchanged and the old timer cancelled. No other key changes. */
  lemma ImportEntryExisting<V>(u: State<V>, e: Entry<V>, skip: bool)
    requires WF(u) && e.key in u.records && !skip
    ensures var r := ImportEntry(u, e, skip, u.now); var o := u.records[e.key];
      && (!Kept(e.expire, u.now) && !Expired(o, u.now) ==>
            && r.records.Keys == u.records.Keys - {e.key}
            && r.size == u.size - 1
            && r.timers == Cancel(u.timers, o.timeout))
      && (!Kept(e.expire, u.now) && Expired(o, u.now) ==>
            r == u.(timers := Cancel(u.timers, o.timeout)))
      && (Kept(e.expire, u.now) ==>
            && e.key in r.records && r.records[e.key].value == e.value && r.records[e.key].expire == e.expire
            && r.records.Keys == u.records.Keys
            && r.size == u.size
            && (o.timeout.Some? ==> o.timeout.value !in r.timers))
      && (forall k :: k != e.key && k in u.records ==> k in r.records && r.records[k] == u.records[k])
  {
    if Kept(e.expire, u.now) {
      var r := Put(u, e.key, e.value, RemainingTtl(e.expire, u.now), NoCallback);
      assert r.result.Ok?;
      assert r.state.records.Keys == u.records.Keys;
    }
  }

  /** What the import of the records `es` into `t` has done, once it
      reached the state `r`. */
  ghost predicate ImportedFresh<V>(t: State<V>, es: seq<Entry<V>>, r: State<V>) {
    && (forall i :: 0 <= i < |es| && Kept(es[i].expire, t.now) ==>
          && es[i].key in r.records
          && r.records[es[i].key].value == es[i].value
          && r.records[es[i].key].expire == es[i].expire)
    && (forall i :: 0 <= i < |es| && !Kept(es[i].expire, t.now) ==> es[i].key !in r.records)
    && (forall k :: k in t.records ==> k in r.records && r.records[k] == t.records[k])
    && (forall k :: k in r.records ==> k in t.records || k in KeySet(es))
  }

  /** ImportedFresh extends by one record whose key is new. */
  lemma ImportedFreshStep<V>(t: State<V>, es: seq<Entry<V>>, u: State<V>, r: State<V>)
    requires |es| > 0
    requires forall i :: 0 <= i < |es| - 1 ==> es[i].key != es[|es| - 1].key
    requires es[|es| - 1].key !in t.records
    requires ImportedFresh(t, es[..|es| - 1], u)
    requires var e := es[|es| - 1];
      && (Kept(e.expire, t.now) ==>
            e.key in r.records && r.records[e.key].value == e.value && r.records[e.key].expire == e.expire)
      && (!Kept(e.expire, t.now) ==> r == u)
      && (forall k :: k != e.key ==> (k in r.records <==> k in u.records))
      && (forall k :: k != e.key && k in u.records ==> r.records[k] == u.records[k])
    ensures ImportedFresh(t, es, r)
  {
    var n := |es| - 1;
    var init := es[..n];
    var e := es[n];
    forall i | 0 <= i < n ensures es[i] == init[i] { }
    forall k | k in r.records ensures k in t.records || k in KeySet(es) {
      if k != e.key {
        assert k in u.records;
        if k !in t.records {
          var i :| 0 <= i < n && init[i].key == k;
          assert es[i].key == k;
        }
      } else {
        assert es[n].key == k;
      }
    }
  }

  /** Before the last record is imported, its key is not held: neither the
      cache nor an earlier record had it. */
  lemma ImportedFreshExcludes<V>(t: State<V>, es: seq<Entry<V>>, u: State<V>)
    requires |es| > 0
    requires forall i, j :: 0 <= i < j < |es| ==> es[i].key != es[j].key
    requires es[|es| - 1].key !in t.records
    requires ImportedFresh(t, es[..|es| - 1], u)
    ensures es[|es| - 1].key !in u.records
  {
    var n := |es| - 1;
    forall i | 0 <= i < n ensures es[..n][i].key != es[n].key {
      assert es[..n][i] == es[i];
    }
    assert es[n].key !in KeySet(es[..n]);
  }

  /** Importing records with distinct keys none of which the cache holds:
      the kept ones arrive with their value and their absolute expiry, the
      others are not inserted, and the existing keys are untouched. */
  lemma {:induction false} ImportFresh<V>(t: State<V>, es: seq<Entry<V>>, skip: bool)
    requires forall i, j :: 0 <= i < j < |es| ==> es[i].key != es[j].key
    requires forall i :: 0 <= i < |es| ==> es[i].key !in t.records
    ensures ImportedFresh(t, es, ImportFrom(t, es, skip, t.now))
    decreases |es|
  {
    if es != [] {
      var n := |es| - 1;
      var init := es[..n];
      forall i, j | 0 <= i < j < n ensures init[i].key != init[j].key {
        assert init[i] == es[i] && init[j] == es[j];
      }
      forall i | 0 <= i < n ensures init[i].key !in t.records {
        assert init[i] == es[i];
      }
      ImportFresh(t, init, skip);
      ImportFromKeepsClock(t, init, skip, t.now);
      var u := ImportFrom(t, init, skip, t.now);
      var e := es[n];
      ImportedFreshExcludes(t, es, u);
      ImportEntryFresh(u, e, skip);
      ImportedFreshStep(t, es, u, ImportEntry(u, e, skip, t.now));
    }
  }

  /** The export lists every key once, in key order, and no other key. */
  lemma ExportEntries<V>(s: State<V>)
    requires WF(s)
    ensures var es := Export(s);
      && (forall i, j :: 0 <= i < j < |es| ==> es[i].key != es[j].key)
      && (forall k :: k in s.records ==> exists i :: 0 <= i < |es| && es[i] == Entry(k, s.records[k].value, ExportExpire(s.records[k].expire)))
      && (forall k :: k in KeySet(es) ==> k in s.records)
  {
    var es := Export(s);
    forall i, j | 0 <= i < j < |es| ensures es[i].key != es[j].key {
      assert es[i].key == s.order[i] && es[j].key == s.order[j];
    }
    forall k | k in s.records
      ensures exists i :: 0 <= i < |es| && es[i] == Entry(k, s.records[k].value, ExportExpire(s.records[k].expire))
    {
      var i :| 0 <= i < |s.order| && s.order[i] == k;
      assert es[i] == Entry(k, s.records[k].value, ExportExpire(s.records[k].expire));
    }
    forall k | k in KeySet(es) ensures k in s.records {
      var i :| 0 <= i < |es| && es[i].key == k;
      assert s.order[i] == k;
    }
  }

  /** export followed by import into a new cache at the same instant: the
      records that still have time left come back with the same value and
      expiry; a record that has none left, including one due exactly now,
      is dropped; an expiry of exactly 0 comes back as none. */
  lemma ExportImportRoundTrip<V>(s: State<V>, t: State<V>, skip: bool)
    requires WF(s) && t.records == map[] && t.now == s.now
    ensures var r := Import(t, Export(s), skip).state;
      && (forall k :: k in r.records <==>
            k in s.records && Kept(ExportExpire(s.records[k].expire), s.now))
      && (forall k :: k in r.records ==>
            r.records[k].value == s.records[k].value
            && r.records[k].expire == ExportExpire(s.records[k].expire))
  {
    var es := Export(s);
    ExportEntries(s);
    ImportFresh(t, es, skip);
    var r := Import(t, es, skip).state;
    assert ImportedFresh(t, es, r);
    forall k | k in s.records
      ensures k in r.records <==> Kept(ExportExpire(s.records[k].expire), s.now)
      ensures k in r.records ==>
        r.records[k].value == s.records[k].value && r.records[k].expire == ExportExpire(s.records[k].expire)
    {
      var i :| 0 <= i < |es| && es[i] == Entry(k, s.records[k].value, ExportExpire(s.records[k].expire));
    }
  }
}
