# MeetYou user cache and visit counters, modelled in Dafny

This project models three in-memory components of the MeetYou backend:

- `UserCache`. It sits in front of the user repository. It is an access-ordered `LinkedHashMap` from user id to a
  `CacheEntry` (the user and the time it was stored). The map is bounded to `MAX_SIZE = 100` entries by
  `removeEldestEntry`. An entry expires when strictly more than `TTL = 10 000` ms have passed since it was stored.
  `get` purges an expired entry it finds. A background task sweeps expired entries. `cleanup` empties the cache.
- `VisitCounterService`. It keeps a table from request URI to an `AtomicInteger` hit counter.
- `VisitService`. It keeps a global visit counter with the times of the first and the latest visit.

Layout:

- `recency.dfy` (module `Recency`): the linked-list order of the keys. Keys are kept least recently used first.
  It defines unlinking (`Drop`, `Without`) and relinking at the most-recently-used end (`Touch`). It proves that
  unlinking never reorders the keys that stay.
- `cache_spec.dfy` (module `CacheSpec`): the cache's content as a value (`CacheState`), its invariant (`WellFormed`),
  and one function per operation (`Get`, `Put`, `Remove`, `ClearExpired`, `Empty`). Each function's contract says what
  the operation guarantees.
- `user_cache.dfy` (module `Cache`): the class `UserCache`. Its fields are the key order (`seq`) and the hash table
  (`map`), and its methods update them in place. Each method is proved to produce the state the matching `CacheSpec`
  function describes.
- `cache_properties.dfy` (module `CacheProperties`): properties that span several calls. These are the size bound
  after any sequence of calls, put-then-get, the exact expiry boundary, eviction by recency of use, and what the
  sweep keeps.
- `int32.dfy` (module `Int32`): Java's wrapping 32-bit `int`, as `AtomicInteger.incrementAndGet` produces it.
- `visit_counter.dfy` (module `VisitCounters`) and `visit.dfy` (module `Visits`): the two counter services as classes.
  A ghost field records how many increments, or which visits, have happened. The invariant ties the 32-bit counters
  to those numbers.

Modelling decisions:

- The system clock becomes a `now` parameter on every operation that reads it. `LocalDateTime.now()` becomes a `now`
  parameter of `RegisterVisit`. Both kinds of time are plain integers.
- The user stored in the cache is a type parameter `User`; the cache never looks inside it. User ids are integers.
- The cache bounds only its entry count. A `put` evicts at most one entry, and only when it inserts a new key.
  Replacing a present key never evicts. `UserCache` defines no `contains`, although `Service.java:34` calls one; no
  such operation is modelled.
- `LinkedHashMap` with access order relinks a key at the most-recently-used end on every `get` hit and every `put`.
  A `put` of a new key appends the key and then asks `removeEldestEntry` once. With `MAX_SIZE = 100` that evicts the
  head of the list whenever the size reaches 101. A `put` of a present key only relinks it.
- `AtomicInteger` arithmetic wraps around, and the model keeps that. The counters equal the number of increments
  modulo 2^32, in two's complement. Two consequences follow from the code as written, and the model states both.
  First, every 2^32 visits the visit counter comes back to 1, so `firstVisitTime` is set again. Second, when the
  counter wraps to 0, `getVisitStats` reports no visits. Below 2^31 calls the counters are exactly the number of calls.

## Model

| member | source | states |
|---|---|---|
| Recency.Drop | src/main/java/com/kirill/meetyou/cache/UserCache.java:75-79 | unlinking a set of keys keeps exactly the other keys and never creates a repeated key |
| Recency.Without | src/main/java/com/kirill/meetyou/cache/UserCache.java:51-55 | unlinking one key keeps exactly the other keys; it is a no-op when the key is absent; for a linked key the list shrinks by exactly one |
| Recency.Touch | src/main/java/com/kirill/meetyou/cache/UserCache.java:21 | an access puts the key at the most-recently-used end, before it the other keys with the key unlinked; the list length grows only when the key is new |
| Recency.IndexOf | src/main/java/com/kirill/meetyou/cache/UserCache.java:21 | the position of a key in the recency order, i.e. its first occurrence |
| Recency.DropKeepsOrder | src/main/java/com/kirill/meetyou/cache/UserCache.java:75-79 | unlinking keys never changes which of two surviving keys was used less recently |
| Recency.WithoutKeepsOrder | src/main/java/com/kirill/meetyou/cache/UserCache.java:51-55 | unlinking one key never changes the relative recency of two other keys |
| Recency.DistinctCard | src/main/java/com/kirill/meetyou/cache/UserCache.java:23-25 | a key list without repetitions has as many keys as its length |
| CacheSpec.CacheEntry.IsExpired | src/main/java/com/kirill/meetyou/cache/UserCache.java:96-98 | an entry is expired when strictly more than `TTL` ms have passed since its timestamp; it is never expired at the time it is stored |
| CacheSpec.ExpiryIsPermanent | src/main/java/com/kirill/meetyou/cache/UserCache.java:96-98 | once an entry has expired it stays expired at every later time |
| CacheSpec.SizeIsOrderLength | src/main/java/com/kirill/meetyou/cache/UserCache.java:23-25 | the map's `size()` equals the length of the recency order |
| CacheSpec.Empty | src/main/java/com/kirill/meetyou/cache/UserCache.java:81-85 | the cleared cache satisfies the invariant and holds no entry |
| CacheSpec.Get | src/main/java/com/kirill/meetyou/cache/UserCache.java:32-43 | `get` hits exactly when the key is present and not expired, returning its stored user. A hit makes the key the most recently used and changes no entry. A miss on an absent key changes nothing. An expired key is removed and unlinked. The invariant is preserved |
| CacheSpec.Put | src/main/java/com/kirill/meetyou/cache/UserCache.java:45-49 | `put` stores a fresh entry stamped `now` and makes the key most recently used, with no other entry's value changed. Replacing a present key keeps the key set and the size. A new key is added without eviction below `MAX_SIZE`. At `MAX_SIZE`, exactly the least recently used key is evicted. The size stays at most `MAX_SIZE` |
| CacheSpec.Remove | src/main/java/com/kirill/meetyou/cache/UserCache.java:51-55 | `remove` deletes exactly that key's entry and is a no-op when it is absent. The other keys keep their relative recency order |
| CacheSpec.ClearExpired | src/main/java/com/kirill/meetyou/cache/UserCache.java:75-79 | the sweep keeps exactly the entries not expired at `now`, with unchanged values and unchanged relative recency order. The invariant is preserved |
| Cache.UserCache.constructor | src/main/java/com/kirill/meetyou/cache/UserCache.java:20-26 | a new cache is empty and satisfies the invariant |
| Cache.UserCache.Get | src/main/java/com/kirill/meetyou/cache/UserCache.java:32-43 | the in-place `get` (relink the key, then drop it from the tail if expired) returns the user and leaves the state that `CacheSpec.Get` gives |
| Cache.UserCache.Put | src/main/java/com/kirill/meetyou/cache/UserCache.java:45-49 | the in-place `put` leaves the state that `CacheSpec.Put` gives: relink a present key, or append a new key and evict the head once the size passes `MAX_SIZE` |
| Cache.UserCache.Remove | src/main/java/com/kirill/meetyou/cache/UserCache.java:51-55 | the in-place `remove` leaves the state that `CacheSpec.Remove` gives |
| Cache.UserCache.ClearExpired | src/main/java/com/kirill/meetyou/cache/UserCache.java:75-79 | the in-place sweep leaves the state that `CacheSpec.ClearExpired` gives |
| Cache.UserCache.Clear | src/main/java/com/kirill/meetyou/cache/UserCache.java:81-85 | after `clear` the cache is empty and valid |
| Cache.UserCache.Cleanup | src/main/java/com/kirill/meetyou/cache/UserCache.java:57-69 | `cleanup` ends with the cache empty and valid |
| CacheProperties.Apply | src/main/java/com/kirill/meetyou/cache/UserCache.java:32-85 | every public operation, and the sweep, preserves the cache invariant |
| CacheProperties.Run | src/main/java/com/kirill/meetyou/cache/UserCache.java:14-26 | after any sequence of operations the cache is well formed and holds at most `MAX_SIZE` entries |
| CacheProperties.SizeBound | src/main/java/com/kirill/meetyou/cache/UserCache.java:14-26 | starting from a new cache, no sequence of calls makes it hold more than 100 entries |
| CacheProperties.PutThenGet | src/main/java/com/kirill/meetyou/cache/UserCache.java:32-49 | a `get` at most `TTL` ms after a `put` of `u` returns `u` |
| CacheProperties.ExpiryIsStrict | src/main/java/com/kirill/meetyou/cache/UserCache.java:96-98 | exactly `TTL` ms after the `put` the entry is still a hit. One ms later it is a miss and the key is removed |
| CacheProperties.ReadSavesFromEviction | src/main/java/com/kirill/meetyou/cache/UserCache.java:21-25 | in a full cache, reading the least recently used key protects it. The next new key evicts the key that was second in line instead: eviction goes by recency of use, not by insertion order |
| CacheProperties.ReplaceKeepsSize | src/main/java/com/kirill/meetyou/cache/UserCache.java:45-49 | two `put`s on one key leave the same keys and size as one |
| CacheProperties.SweepKeepsLiveEntries | src/main/java/com/kirill/meetyou/cache/UserCache.java:75-79 | after the sweep, a lookup at the sweep's time hits exactly as before it. Every expired key is gone |
| CacheProperties.ClearedCacheMisses | src/main/java/com/kirill/meetyou/cache/UserCache.java:81-85 | after `clear` every `get` misses |
| Int32.Wrap | src/main/java/com/kirill/meetyou/service/VisitCounterService.java:14 | a value within the `int` range is kept as it is |
| Int32.WrapCongruent | src/main/java/com/kirill/meetyou/service/VisitCounterService.java:14 | a wrapped value differs from the unbounded one by a multiple of 2^32 |
| Int32.IncrementAndGet | src/main/java/com/kirill/meetyou/service/VisitCounterService.java:14 | `incrementAndGet` adds one below `MAX` and wraps from `MAX` to `MIN` |
| Int32.WrapUnique | src/main/java/com/kirill/meetyou/service/VisitCounterService.java:14 | only one `int` value is congruent to a number modulo 2^32 |
| Int32.IncrementWrapped | src/main/java/com/kirill/meetyou/service/VisitService.java:17 | incrementing the wrapped count of n events gives the wrapped count of n + 1 events |
| VisitCounters.VisitCounterService.constructor | src/main/java/com/kirill/meetyou/service/VisitCounterService.java:11 | the table starts empty |
| VisitCounters.VisitCounterService.Increment | src/main/java/com/kirill/meetyou/service/VisitCounterService.java:13-15 | `increment(uri)` raises `getCount(uri)` by exactly one, wrapping at 32 bits. No other URI's count changes. The key set gains `uri`. The invariant (each counter equals its increment count) is kept |
| VisitCounters.VisitCounterService.GetCount | src/main/java/com/kirill/meetyou/service/VisitCounterService.java:17-19 | the count is the number of increments since the last reset, wrapped to 32 bits. It is 0 for a URI never incremented and at least 1 for an incremented one while it is below 2^31. It is a read that adds nothing to the table |
| VisitCounters.VisitCounterService.GetAllCounts | src/main/java/com/kirill/meetyou/service/VisitCounterService.java:21-24 | the snapshot's keys are exactly the URIs incremented since the last reset, each mapped to its `getCount` |
| VisitCounters.VisitCounterService.Reset | src/main/java/com/kirill/meetyou/service/VisitCounterService.java:26-28 | after `reset`, `getAllCounts` is empty and `getCount` is 0 for every URI |
| Visits.RoundStart | src/main/java/com/kirill/meetyou/service/VisitService.java:20-22 | the visit that last set the counter to 1; within the first 2^32 visits it is the very first visit |
| Visits.WrapIsOne | src/main/java/com/kirill/meetyou/service/VisitService.java:20 | the counter becomes 1 exactly on visits 1, 2^32 + 1, … |
| Visits.NextRound | src/main/java/com/kirill/meetyou/service/VisitService.java:20-22 | a visit that does not bring the counter to 1 leaves the first visit time's round unchanged |
| Visits.VisitService.constructor | src/main/java/com/kirill/meetyou/service/VisitService.java:11-13 | no visits: counter 0 and both times missing |
| Visits.VisitService.RegisterVisit | src/main/java/com/kirill/meetyou/service/VisitService.java:15-27 | `registerVisit` returns a count one greater than the previous one, starting at 1 and wrapping at 32 bits. The returned time is `now`. `lastVisitTime` is always `now`. `firstVisitTime` is set only when the count becomes 1, so within the first 2^32 visits it stays the time of visit 1 |
| Visits.VisitService.GetVisitStats | src/main/java/com/kirill/meetyou/service/VisitService.java:29-39 | before any visit the stats are `(0, null, null)`. Otherwise they are the number of `registerVisit` calls with the first and the latest visit times, both present, while the count is below 2^31. A zero counter always reads `(0, null, null)` |

## Left out

- The background sweeper (`ScheduledExecutorService`, `scheduleAtFixedRate`, `awaitTermination`, `shutdownNow`) is
  left out. The sweep is modelled as an operation callable at any `now`. `Cleanup` models only the final `clear()`.
- The `synchronized` blocks and the thread safety of `ConcurrentHashMap` and `AtomicInteger` are left out. Calls are
  modelled as sequential. So is `registerVisit`'s unlocked increment, which under concurrency can record visit times
  out of order.
- The system clock is not modelled: `System.currentTimeMillis()` and `LocalDateTime.now()` become parameters. The
  sweep reads the clock once per pass, where Java reads it once per entry.
- The 64-bit range of `long` timestamps and `Long` ids is not modelled. `now - timestamp` is unbounded here, where in
  Java it could overflow for timestamps more than 2^63 ms apart.
- Null ids and null users are not modelled. A `put` of a null user would make a later hit indistinguishable from a miss.
- `LinkedHashMap`'s initial capacity and load factor are left out, because they affect only performance.
- The callers are not part of this model. That covers the cache-aside use in `UserService`, the `VisitCounterFilter`
  that calls `increment`, and the controllers that expose the counters.
- The entry-by-entry walk of `removeIf` is not modelled. The sweep removes the whole expired set in one step. The
  result is the same, because the pass runs under one lock.
