/**
 * Properties of the user cache that involve more than one operation: the
 * size bound over any sequence of calls, reading back what was stored,
 * the exact expiry boundary, and eviction by recency of use rather than by
 * age of insertion.
 */
module CacheProperties {
  import opened Recency
  import opened Optional
  import opened CacheSpec

  /** One call on the cache: a public operation or a run of the sweeper. */
  datatype Op<User> =
    | GetOp(id: Id, now: Millis)
    | PutOp(id: Id, user: User, now: Millis)
    | RemoveOp(id: Id)
    | ClearExpiredOp(now: Millis)
    | ClearOp

  /** The cache after one call. */
  function Apply<User>(s: CacheState<User>, op: Op<User>): (r: CacheState<User>)
    requires WellFormed(s)
    ensures WellFormed(r)
  {
    match op
    case GetOp(id, now) => Get(s, id, now).0
    case PutOp(id, user, now) => Put(s, id, user, now)
    case RemoveOp(id) => Remove(s, id)
    case ClearExpiredOp(now) => ClearExpired(s, now)
    case ClearOp => Empty()
  }

  /**
   * The cache after a sequence of calls, in order. Whatever the calls, the
   * cache stays well formed and never holds more than `MAX_SIZE` entries.
   */
  function Run<User>(s: CacheState<User>, ops: seq<Op<User>>): (r: CacheState<User>)
    requires WellFormed(s)
    ensures WellFormed(r)
    ensures |r.entries| <= MAX_SIZE
    decreases ops
  {
    if ops == [] then
      SizeIsOrderLength(s);
      s
    else
      Run(Apply(s, ops[0]), ops[1..])
  }

  /** Starting from a new cache, no sequence of calls makes it hold more than `MAX_SIZE` entries. */
  lemma SizeBound<User>(ops: seq<Op<User>>)
    ensures |Run(Empty<User>(), ops).entries| <= MAX_SIZE
  {
  }

  /** A user stored at `now` is returned by a `get` at any time at most `TTL` later. */
  lemma PutThenGet<User>(s: CacheState<User>, id: Id, user: User, now: Millis, later: Millis)
    requires WellFormed(s)
    requires later - now <= TTL
    ensures Get(Put(s, id, user, now), id, later).1 == Some(user)
  {
  }

  /**
   * Expiry is strict: exactly `TTL` milliseconds after the `put` the entry is
   * still a hit; one millisecond later it is a miss and the key is gone.
   */
  lemma ExpiryIsStrict<User>(s: CacheState<User>, id: Id, user: User, now: Millis)
    requires WellFormed(s)
    ensures Get(Put(s, id, user, now), id, now + TTL).1 == Some(user)
    ensures Get(Put(s, id, user, now), id, now + TTL + 1).1 == None
    ensures id !in Get(Put(s, id, user, now), id, now + TTL + 1).0.entries
  {
  }

  /**
   * Eviction follows recency of use, not age of insertion: in a full cache,
   * reading the least recently used key saves it, and the next insertion of
   * a new key evicts the key that was second in line instead.
   */
  lemma ReadSavesFromEviction<User>(
    s: CacheState<User>, now: Millis, newId: Id, user: User, later: Millis)
    requires WellFormed(s) && |s.order| == MAX_SIZE
    requires s.order[0] in s.entries && !s.entries[s.order[0]].IsExpired(now)
    requires newId !in s.entries
    ensures var s' := Put(Get(s, s.order[0], now).0, newId, user, later);
            && s.order[0] in s'.entries
            && s.order[1] !in s'.entries
            && s'.entries.Keys == s.entries.Keys - {s.order[1]} + {newId}
  {
    var eldest := s.order[0];
    var s1 := Get(s, eldest, now).0;
    WithoutEldest(s.order);
    assert s1.order == s.order[1..] + [eldest];
    assert s1.order[0] == s.order[1];
  }

  /** Storing twice under one key leaves the same keys, and so the same size, as storing once. */
  lemma ReplaceKeepsSize<User>(s: CacheState<User>, id: Id, u1: User, u2: User, t1: Millis, t2: Millis)
    requires WellFormed(s)
    ensures Put(Put(s, id, u1, t1), id, u2, t2).entries.Keys == Put(s, id, u1, t1).entries.Keys
    ensures |Put(Put(s, id, u1, t1), id, u2, t2).entries| == |Put(s, id, u1, t1).entries|
  {
  }

  /** After the sweep, every key is a hit at the sweep's time exactly when it was a live entry before. */
  lemma SweepKeepsLiveEntries<User>(s: CacheState<User>, now: Millis, id: Id)
    requires WellFormed(s)
    ensures Get(ClearExpired(s, now), id, now).1 == Get(s, id, now).1
    ensures id in s.entries && s.entries[id].IsExpired(now) ==> id !in ClearExpired(s, now).entries
  {
  }

  /** After `clear` (and so after `cleanup`) every lookup misses. */
  lemma ClearedCacheMisses<User>(id: Id, now: Millis)
    ensures Get(Empty<User>(), id, now).1 == None
  {
  }
}
