# node-cache in Dafny

This project models the three in-memory key–value caches of node-cache and proves properties about them:

- **`Cache` (index.js), the expiring store.** It keeps a map from key to `{value, expire, timeout}`, a size counter, hit and miss counters and a debug flag. A put with a ttl arms a one-shot timer. When that timer runs, it deletes the key and calls an optional callback with the key and the value.
- **`HitCache` (hit-cache/hit-cache.js), the overlay.** It stores each value inside a wrapper `{remainingLife, value, lifespan}`. Every hit banks one more life in the wrapper. When the key expires, its callback spends a life and re-puts the same wrapper.
- **`TinyCache` (tinycache.js), an older store.** It does no argument checks and keeps no size counter. Its `del` and `clear` leave timers armed. Its `size()` deletes expired entries as a side effect.

Each store has two layers:

- **State-machine functions.** `CacheState` and `TinyState` define one function per operation, from the state before the call to the state after it and the result.
- **A class.** `ExpiringCache.Cache` and `TinyCacheStore.TinyCache` have fields mirroring the JavaScript state. Every method proves that it moves those fields exactly as the matching function moves the state.

`CacheLaws`, and the lemmas in `TinyState` and `HitCacheOverlay`, prove what the functions promise. `HitCacheOverlay` is written over `ExpiringCache.Cache`. Its `LifeWrapper` is a class, so in-place hits are seen through the reference held by the pending timer.

## The host

The host's facilities are modelled abstractly:

- **The clock.** `Date.now()` is a `now` field that the host advances with `Tick`.
- **Timers.** `setTimeout` and `clearTimeout` are a table of pending timers, `map<Handle, Timer>`. Each timer records the key, the due time, the captured value and the callback tag.
- **Running a timer.** The host calls `Fire(h)` on a pending timer that is due. In index.js the closure's callback call is handed back to the host as an `Invocation`. `HitCacheOverlay.HitCache.Expire` runs the reincarnation handler itself.
- **Key order.** The iteration order of the JavaScript object is a duplicate-free `order` sequence. `keys()`, `clear()`, `memsize()`, the export and TinyCache's `size()` loop over it.

### Quirks modelled as written

- **`get` of an expired key (index.js:90-95).** It removes the key but leaves its timer pending. When that timer runs, `_del` decrements `_size` again (index.js:67-70). So `size()` and `memsize()` drift apart; they are proved to agree in the steady state `CacheLaws.Tidy`. `CacheLaws.SizeGoesNegative` shows a run where `size()` is -1 on an empty map.
- **`del` of a present but expired record (index.js:53-55).** It cancels the timer, returns false and keeps the record.
- **`expire || 'NaN'` in the export (index.js:140).** It turns an expiry of exactly 0 into "no expiry".
- **TinyCache timers (tinycache.js:37-45).** `del` and `clear` do not cancel them, so a stale timer can later delete a key that was put again (`TinyState.StaleTimerDeletesReput`).
- **Get of an absent key.** It counts a miss in debug mode in index.js (index.js:96-98) but not in tinycache.js.
- **`debug(bool)` (index.js:115-117).** It only sets the flag; the hit and miss counters are not reset (`ExpiringCache.Cache.Debug`).
- **No `del` or `clear` on the overlay.** `HitCache` (hit-cache/hit-cache.js) has only `set`, `get` and its reincarnation handler, so callers remove keys through the store directly.
- **Size and memsize drift.** They agree after every operation only until an expired key is read before its timer runs (see the first item).
- **A timer runs after its record is gone.** The timer of a record that `get` removed is never cancelled, so it still runs later.

## Model

| member | source | states |
|---|---|---|
| Host.Cancel | index.js:23 | clearTimeout removes exactly that handle from the pending table; clearing undefined changes nothing |
| Host.RemoveKey | index.js:69 | `delete` on the key order: the key leaves, every other key stays, no duplicates appear, the length drops by one when the key was present |
| Host.RemoveKeyCut | index.js:69 | a key listed once is cut out at its one position; the keys before and after it keep their order |
| Host.DistinctCard | index.js:106-113 | a duplicate-free key order has as many entries as the map has keys, so counting the loop equals the map's cardinality |
| CacheState.Empty | index.js:3-8 | a new cache: empty map, size 0, counters 0, debug off, no timers |
| CacheState.Expired | index.js:53 | del's test `!isNaN(expire) && expire < now` is the negation of get's `isNaN(expire) \|\| expire >= now` (index.js:87); a record due exactly now is still live |
| CacheState.ValidTtl | index.js:15 | put accepts undefined and a positive number and throws for a non-number, NaN or a ttl of at most 0 |
| CacheState.Drop | index.js:67-70 | `_del`: size decreases by one whether or not the key is present; only that key leaves the map and the key order; timers, counters, flag and clock untouched |
| CacheState.Put | index.js:10-45 | errors in source order (bad ttl, then bad callback) with no effect; otherwise returns the value; the key holds it; other keys untouched; only a new key counts, and it goes last in the key order; the old timer is cancelled; no ttl arms no timer; a ttl sets expire to now+ttl and arms one fresh timer capturing key, value and callback |
| CacheState.Store | index.js:21-42 | once the checks pass: the key holds the value, the key set gains the key, a new key goes last in the key order, other records untouched, the size counts only a new key, counters, flag and clock untouched |
| CacheState.Get | index.js:84-100 | returns the value exactly when the key is present and not past expiry; a hit changes only the hit counter in debug mode; an absent key changes only the miss counter in debug mode; an expired key is removed from the map and the key order and the size decremented, its timer left pending, the other records, clock and flag untouched |
| CacheState.Del | index.js:47-65 | returns true exactly for a present unexpired key, then cancels its timer, removes it from the map and the key order and decrements size, flag and timer handles untouched; a missing key has no effect; an expired record keeps its place but loses its timer; counters untouched |
| CacheState.Clear | index.js:72-82 | empty map, size 0, every record's timer cancelled, other timers kept, counters reset only in debug mode |
| CacheState.Fire | index.js:34-39 | a due timer removes its key from the map and the key order, decrements size, leaves the other records, counters, flag, clock and timer handles, and yields its callback exactly when one was given, with the key and value captured at put |
| CacheState.Tick | index.js:30 | the clock advances by the given amount and nothing else changes |
| CacheState.SetDebug | index.js:115-117 | only the flag changes; the counters are not reset |
| CacheState.ExportExpire | index.js:140 | `expire \|\| 'NaN'`: an expiry of 0 becomes no expiry, any other value is kept |
| CacheState.ExportKeys | index.js:136-142 | one entry per key in order, each with the record's value and exported expiry |
| CacheState.Export | index.js:131-145 | one entry per key of the cache |
| CacheState.RemainingTtl | index.js:169-179 | `expire - currTime`, or no ttl for a record without expiry; put accepts it exactly when the record has time left or no expiry |
| CacheState.ImportEntry | index.js:153-182 | a duplicate key under skipDuplicates leaves the state unchanged; only the entry's key can change; clock, counters and flag untouched; the invariant is kept |
| CacheState.ImportFrom | index.js:153-183 | the import loop keeps the state invariant |
| CacheState.Import | index.js:147-186 | the result is the size after the import |
| CacheLaws.MemSize | index.js:106-113 | memsize is the number of keys in the map |
| CacheLaws.EmptyIsTidy | index.js:3-8 | a new cache starts in the steady state |
| CacheLaws.TidySizeIsMemSize | index.js:102-113 | in the steady state, size() equals memsize() |
| CacheLaws.PutKeepsTidy | index.js:10-45 | put keeps the steady state: the size matches the map, each finite-ttl record has exactly its own pending timer due at its expiry, every pending timer belongs to its record |
| CacheLaws.PutRecords | index.js:21-42 | a successful put stores one record under the key, bumps the map size only for a new key, and the record is live with a timer exactly when it has an expiry |
| CacheLaws.PutTimers | index.js:21-40 | a successful put cancels the old record's timer and adds at most the one fresh timer for the key, due at the record's expiry |
| CacheLaws.InsertKeepsTidy | index.js:21-42 | replacing a record and arming at most one fresh timer keeps the steady state |
| CacheLaws.GetKeepsTidy | index.js:84-100 | in the steady state get returns exactly the stored value for every present key and keeps the steady state |
| CacheLaws.DelKeepsTidy | index.js:47-65 | in the steady state del succeeds exactly on present keys and keeps the steady state |
| CacheLaws.ClearKeepsTidy | index.js:72-82 | clear keeps the steady state, leaving no timer pending |
| CacheLaws.FireKeepsTidy | index.js:34-39 | a due timer running in the steady state keeps it |
| CacheLaws.TickKeepsTidy | index.js:87 | the clock may advance up to the earliest pending due time without breaking the steady state |
| CacheLaws.ImportKeepsTidy | index.js:147-186 | import keeps the steady state |
| CacheLaws.ExpiredGetThenFireDecrementsTwice | index.js:67-95 | get of an expired key and then its stale timer (whose `_del` decrements again) decrement the size twice while the map loses one key |
| CacheLaws.SizeGoesNegative | index.js:21-95 | put with ttl 1, two milliseconds, get, then the timer: size() is -1 on an empty map |
| CacheLaws.PutThenGet | index.js:28-89 | right after a successful put, get returns the value put |
| CacheLaws.NoTtlNeverExpires | index.js:30-87 | put without ttl arms no timer and get returns the value however far the clock moves |
| CacheLaws.DelTwice | index.js:47-65 | after a successful del, a second del returns false and changes nothing |
| CacheLaws.ImportFromKeepsClock | index.js:149 | the import reads and keeps one time |
| CacheLaws.ImportSkipKeepsExisting | index.js:155-162 | with skipDuplicates every key the cache held keeps its record |
| CacheLaws.ImportEntryFresh | index.js:169-181 | importing a record for a new key inserts it with its value and absolute expiry when time is left, and otherwise changes nothing |
| CacheLaws.ImportEntryExisting | index.js:153-182 | an entry for a key already held, not skipped: with no time left it goes through del, so a live record leaves and the size drops by one while an expired one stays with its timer cancelled; a kept entry overwrites the record with its value and expiry, the key set and size unchanged and the old timer cancelled; no other key changes |
| CacheLaws.ImportFresh | index.js:153-183 | importing records with distinct new keys: kept ones arrive with value and expiry, ones with no time left are absent, existing keys untouched, nothing else appears |
| CacheLaws.ExportEntries | index.js:136-142 | the export lists every key once with its value and exported expiry, and no other key |
| CacheLaws.ExportImportRoundTrip | index.js:131-186 | export then import into an empty cache at the same instant: exactly the records with time left come back, with the same value and expiry; an expiry of 0 comes back as none |
| ExpiringCache.Cache.constructor | index.js:3-8 | a new cache is the empty state |
| ExpiringCache.Cache.Put | index.js:10-45 | moves the fields as CacheState.Put and returns its result |
| ExpiringCache.Cache.StoreRecord | index.js:21-42 | the part of put after its checks, as CacheState.Put's success branch |
| ExpiringCache.Cache.Del | index.js:47-65 | moves the fields as CacheState.Del and returns its result |
| ExpiringCache.Cache.DropKey | index.js:67-70 | moves the fields as CacheState.Drop |
| ExpiringCache.Cache.Clear | index.js:72-82 | moves the fields as CacheState.Clear |
| ExpiringCache.Cache.CancelAll | index.js:73-75 | the loop cancels the timer of every record and changes nothing else |
| ExpiringCache.Cache.Get | index.js:84-100 | moves the fields as CacheState.Get and returns its result |
| ExpiringCache.Cache.Size | index.js:102-104 | returns the counter |
| ExpiringCache.Cache.MemSize | index.js:106-113 | the counting loop returns the number of keys in the map |
| ExpiringCache.Cache.Debug | index.js:115-117 | moves the fields as CacheState.SetDebug |
| ExpiringCache.Cache.Hits | index.js:119-121 | returns the hit counter |
| ExpiringCache.Cache.Misses | index.js:123-125 | returns the miss counter |
| ExpiringCache.Cache.Keys | index.js:127-129 | every key once, and only keys of the map, in map order |
| ExpiringCache.Cache.ExportRecords | index.js:131-145 | the loop builds exactly CacheState.Export of the current state |
| ExpiringCache.Cache.ImportRecords | index.js:147-186 | moves the fields as CacheState.Import and returns the size |
| ExpiringCache.Cache.ImportOne | index.js:154-181 | one pass of the import loop, as CacheState.ImportEntry |
| ExpiringCache.Cache.Tick | index.js:30 | moves the fields as CacheState.Tick |
| ExpiringCache.Cache.Fire | index.js:34-39 | moves the fields as CacheState.Fire and hands back its callback invocation |
| HitCacheOverlay.LifeWrapper.constructor | hit-cache/hit-cache.js:11 | a wrapper with no life banked, holding the value and lifespan |
| HitCacheOverlay.SetArms | hit-cache/hit-cache.js:10-13 | a successful set with a positive lifespan leaves the key holding the wrapper with a pending reincarnation timer due one lifespan from now, other keys untouched |
| HitCacheOverlay.ReincarnationRearms | hit-cache/hit-cache.js:24-28 | an armed key's timer runs and the handler re-puts the wrapper: armed again, due one lifespan from now, size unchanged, other keys untouched |
| HitCacheOverlay.LastExpiryRemoves | hit-cache/hit-cache.js:25-29 | an armed key's timer runs when no life is left: the key is gone, size decreases by one, other keys untouched |
| HitCacheOverlay.HitCache.constructor | hit-cache/hit-cache.js:2-8 | the overlay wraps the given store |
| HitCacheOverlay.HitCache.Set | hit-cache/hit-cache.js:10-13 | puts a fresh wrapper with no life banked, with the lifespan as ttl and the reincarnation handler as callback; a set on an existing key thus starts again from zero; errors exactly for an invalid lifespan |
| HitCacheOverlay.HitCache.Get | hit-cache/hit-cache.js:15-22 | the store's get; a hit returns the caller's value and increments the stored wrapper's remainingLife by exactly one in place; a miss returns nothing and changes no wrapper |
| HitCacheOverlay.HitCache.SetThenGet | hit-cache/hit-cache.js:10-22 | after a successful set, get returns the caller's value and the wrapper has banked one life |
| HitCacheOverlay.HitCache.ReIncarnation | hit-cache/hit-cache.js:24-29 | with life banked: spends exactly one and re-puts the same wrapper under the same key with the same lifespan and handler; with none: changes nothing |
| HitCacheOverlay.HitCache.Expire | hit-cache/hit-cache.js:24-29 | the store's timer runs; a reincarnation callback runs the handler, and any other callback is handed back to the host |
| HitCacheOverlay.HitCache.ExpireArmed | hit-cache/hit-cache.js:24-29 | an armed key's timer runs when due: re-armed one lifespan later with one life fewer and the same size, or removed with size one less when no life is left |
| HitCacheOverlay.HitCache.Drain | hit-cache/hit-cache.js:15-29 | left alone, a key whose wrapper banked n lives expires exactly n+1 times, the last one n lifespans after the first, and is then absent with size one less and every other key untouched |
| TinyState.Empty | tinycache.js:3-11 | a new cache: empty map, counters 0, debug off |
| TinyState.Expired | tinycache.js:51 | the negation of get's `isNaN(expire) \|\| expire >= now()`; a record due exactly now is still live |
| TinyState.ExpireOf | tinycache.js:21 | `time + now()` is a number exactly when time is one, and then lies time after now |
| TinyState.Put | tinycache.js:13-35 | the key holds the value with expiry now+time, or none when time is not a number; a new key goes last in the key order; other keys untouched; the replaced record's timer is cancelled; a timer is armed exactly for a finite expiry; no other timer changes |
| TinyState.Del | tinycache.js:37-40 | the key leaves the map and the key order; timers and counters untouched |
| TinyState.Clear | tinycache.js:42-45 | the map is emptied; timers and counters untouched |
| TinyState.Get | tinycache.js:47-63 | returns the value exactly for a present live key, counting a hit in debug mode; an expired key is deleted and counted as a miss in debug mode; an absent key changes nothing, not even the miss counter |
| TinyState.Fire | tinycache.js:27-29 | a due timer deletes its key from the map and the key order, whatever record that key holds now; counters, flag, clock and timer handles untouched |
| TinyState.Tick | tinycache.js:1 | the clock advances and nothing else changes |
| TinyState.SizeNext | tinycache.js:71-74 | one pass of size()'s loop adds zero or one |
| TinyState.SizeFrom | tinycache.js:68-76 | the loop counts at most one per key scanned |
| TinyState.Size | tinycache.js:65-78 | size() is at most the number of keys |
| TinyState.MemSize | tinycache.js:80-90 | memsize is the number of keys in the map |
| TinyState.LiveOnly | tinycache.js:51 | exactly the records not past their expiry, unchanged |
| TinyState.SizeFromRecords | tinycache.js:68-76 | after scanning some keys, exactly the expired ones among them are deleted; timers untouched |
| TinyState.SizeFromCount | tinycache.js:68-76 | the loop counts the live keys scanned; each is a hit and each expired one a miss in debug mode |
| TinyState.SizeEffect | tinycache.js:65-90 | size() never exceeds the memsize() just before it, leaves exactly the live records and no expired one, then equals memsize(), leaves timers untouched and counts hits and misses in debug mode |
| TinyState.StaleTimerDeletesReput | tinycache.js:27-40 | put with a ttl, del, put again without one: when the first timer comes due it deletes the new record |
| TinyState.PutLeavesOneTimer | tinycache.js:16-34 | when every timer belongs to its record, put leaves only the new record's timer pending for that key |
| TinyCacheStore.TinyCache.constructor | tinycache.js:3-11 | a new cache is the empty state |
| TinyCacheStore.TinyCache.Put | tinycache.js:13-35 | moves the fields as TinyState.Put |
| TinyCacheStore.TinyCache.Del | tinycache.js:37-40 | moves the fields as TinyState.Del |
| TinyCacheStore.TinyCache.Clear | tinycache.js:42-45 | moves the fields as TinyState.Clear |
| TinyCacheStore.TinyCache.Get | tinycache.js:47-63 | moves the fields as TinyState.Get and returns its result |
| TinyCacheStore.TinyCache.Size | tinycache.js:65-78 | the loop of gets moves the fields as TinyState.Size and returns its count |
| TinyCacheStore.TinyCache.SizeStep | tinycache.js:71-74 | one pass of the loop, as TinyState.SizeNext |
| TinyCacheStore.TinyCache.MemSize | tinycache.js:80-90 | the counting loop returns the number of keys in the map |
| TinyCacheStore.TinyCache.Hits | tinycache.js:92-95 | returns the hit counter |
| TinyCacheStore.TinyCache.Misses | tinycache.js:97-100 | returns the miss counter |
| TinyCacheStore.TinyCache.Tick | tinycache.js:1 | moves the fields as TinyState.Tick |
| TinyCacheStore.TinyCache.Fire | tinycache.js:27-29 | moves the fields as TinyState.Fire |

## Left out

- Debug output: the `console.log` calls (index.js:12, index.js:159, tinycache.js:15) have no logical content.
- Text encoding: `JSON.stringify` and `JSON.parse` and the `'NaN'` string (index.js:144, index.js:148). Export and import work on a sequence of `(key, value, expiry)` entries. Values are assumed to pass through the text encoding unchanged.
- JavaScript numbers: NaN, fractions and Infinity are not modelled. A ttl is `NoTtl`, a whole number of milliseconds or `NotANumber`. An expiry is an optional integer.
- Key coercion and key order: keys are strings. `Object.keys` lists integer-like keys first; the model keeps plain insertion order.
- Keys named after `Object.prototype` properties (`toString`, `__proto__`, `hasOwnProperty` and the like): keys are assumed to be other names. With such a key, the lookup at tinycache.js:49-50 finds an inherited member of `self.cache = {}`, so `get` on an empty TinyCache takes the present branch. index.js:138 assigning `__proto__` on the plain export object drops that key from the export. `cacheToImport.hasOwnProperty(key)` (index.js:154) throws when the parsed input has its own `hasOwnProperty` key. The model treats every key as an ordinary own key in all three places.
- tinycache.js time arguments: a string `time` makes `time + now()` a string. That is not modelled, so any non-number time counts as no expiry.
- Scheduling: real `setTimeout`, `clearTimeout` and `Date.now()`, delay clamping, drift and the order in which due timers run are left to the host. Only a pending, due timer can be fired.
- TinyCacheStore.TinyCache.Size: counts every live record. The source tests `get(key) !== null`, so it does not count a live record whose value is `null`. Values are generic and carry no null.
- HitCacheOverlay: modelled over index.js's `Cache` only. Over a `TinyCache` the reincarnation handler is never called, because `TinyCache.put` ignores a fourth argument.
- HitCacheOverlay.HitCache.Expire: a put error raised inside the reincarnation handler is dropped, because the source throws it from a timer callback, outside any caller.
- Module plumbing: the module singletons, `TinyCache.shared` and the export blocks (index.js:189-190, tinycache.js:102-120).
