/**
 * What the user cache holds and how each of its operations changes that:
 * a bounded map from user id to a time-stamped entry, kept in access order
 * (least recently used first), whose entries expire a fixed time after they
 * were stored. The class `Cache.UserCache` is proved to follow these
 * functions step by step.
 */
module CacheSpec {
  import opened Recency
  import opened Optional

  /** Largest number of entries the cache keeps. */
  const MAX_SIZE: nat := 100
  /** Time to live of an entry, in milliseconds (1 * 10 * 1000). */
  const TTL: int := 10000

  /** Milliseconds since the epoch, the unit of the system clock. */
  type Millis = int

  /** A cached user together with the time it was stored. */
  datatype CacheEntry<User> = CacheEntry(user: User, timestamp: Millis)
  {
    /**
     * Strictly more than `TTL` milliseconds have passed since the entry was
     * stored; so an entry is never expired at the time it is stored.
     */
    predicate IsExpired(now: Millis)
      ensures now <= timestamp ==> !IsExpired(now)
    {
      now - timestamp > TTL
    }
  }

  /** Once expired, an entry stays expired at every later time. */
  lemma ExpiryIsPermanent<User>(e: CacheEntry<User>, now: Millis, later: Millis)
    requires e.IsExpired(now) && now <= later
    ensures e.IsExpired(later)
  {
  }

  /** The cache's content: the recency order of its keys and the entry of each key. */
  datatype CacheState<User> = CacheState(order: seq<Id>, entries: map<Id, CacheEntry<User>>)

  /**
   * The invariant of the access-ordered map: each key is linked exactly once,
   * the linked keys are the map's keys, and there are at most `MAX_SIZE` of them.
   */
  ghost predicate WellFormed<User>(s: CacheState<User>) {
    && Distinct(s.order)
    && (forall k :: k in s.entries <==> k in s.order)
    && |s.order| <= MAX_SIZE
  }

  /** The number of entries (the map's `size()`) is the length of the recency order. */
  lemma SizeIsOrderLength<User>(s: CacheState<User>)
    requires WellFormed(s)
    ensures |s.entries| == |s.order|
  {
    assert forall k :: k in s.entries.Keys <==> k in Elems(s.order);
    assert s.entries.Keys == Elems(s.order);
    DistinctCard(s.order);
  }

  /** Unlinking the least recently used key of a list leaves the rest of the list as it was. */
  lemma WithoutEldest(s: seq<Id>)
    requires Distinct(s) && |s| > 0
    ensures Without(s, s[0]) == s[1..]
  {
    assert forall i :: 0 <= i < |s[1..]| ==> s[1..][i] != s[0];
    assert Drop(s[1..], {s[0]}) == s[1..];
  }

  /** The cache as it is created, and as `clear` leaves it. */
  function Empty<User>(): (r: CacheState<User>)
    ensures WellFormed(r) && |r.entries| == 0
  {
    CacheState([], map[])
  }

  /**
   * `get`: a miss leaves the cache alone; an expired entry is purged and
   * reported as a miss; a hit returns the stored user and makes its key the
   * most recently used.
   */
  function Get<User>(s: CacheState<User>, id: Id, now: Millis): (r: (CacheState<User>, Option<User>))
    requires WellFormed(s)
    ensures WellFormed(r.0)
    ensures r.1.Some? <==> id in s.entries && !s.entries[id].IsExpired(now)
    ensures r.1.Some? ==> r.1.value == s.entries[id].user
    ensures r.1.Some? ==> r.0.entries == s.entries && r.0.order == Touch(s.order, id)
    ensures id !in s.entries ==> r.0 == s
    ensures id in s.entries && s.entries[id].IsExpired(now) ==>
              r.0.entries == s.entries - {id} && r.0.order == Without(s.order, id)
  {
    if id !in s.entries then (s, None)
    else if s.entries[id].IsExpired(now) then (CacheState(Without(s.order, id), s.entries - {id}), None)
    else (CacheState(Touch(s.order, id), s.entries), Some(s.entries[id].user))
  }

  /**
   * `put`: stores a freshly time-stamped entry for `id` and makes `id` the most
   * recently used key. Replacing a present key changes neither the size nor
   * any other entry; inserting a new key into a full cache evicts exactly one
   * entry, the least recently used one.
   */
  function Put<User>(s: CacheState<User>, id: Id, user: User, now: Millis): (r: CacheState<User>)
    requires WellFormed(s)
    ensures WellFormed(r)
    ensures id in r.entries && r.entries[id] == CacheEntry(user, now)
    ensures r.order[|r.order| - 1] == id
    ensures forall k :: k in r.entries && k != id ==> k in s.entries && r.entries[k] == s.entries[k]
    ensures id in s.entries ==> r.entries.Keys == s.entries.Keys && |r.order| == |s.order|
    ensures id in s.entries ==> r.order == Without(s.order, id) + [id]
    ensures id !in s.entries && |s.order| < MAX_SIZE ==>
              r.entries.Keys == s.entries.Keys + {id} && r.order == s.order + [id]
    ensures id !in s.entries && |s.order| == MAX_SIZE ==>
              r.entries.Keys == s.entries.Keys + {id} - {s.order[0]} && r.order == s.order[1..] + [id]
  {
    var entries := s.entries[id := CacheEntry(user, now)];
    if id in s.entries then
      CacheState(Touch(s.order, id), entries)
    else if |s.order| < MAX_SIZE then
      AppendFresh(s.order, id);
      CacheState(s.order + [id], entries)
    else
      // the new key is linked at the most-recently-used end, then the eldest is evicted
      AppendFresh(s.order, id);
      assert (s.order + [id])[1..] == s.order[1..] + [id];
      CacheState(s.order[1..] + [id], entries - {s.order[0]})
  }

  /** Linking a key that is not yet in the list keeps it free of repetitions, and so does dropping the head. */
  lemma AppendFresh(s: seq<Id>, id: Id)
    requires Distinct(s) && id !in s
    ensures Distinct(s + [id])
    ensures Distinct((s + [id])[1..])
  {
  }

  /** `remove`: deletes the entry of `id`, if any, and unlinks the key; nothing else changes. */
  function Remove<User>(s: CacheState<User>, id: Id): (r: CacheState<User>)
    requires WellFormed(s)
    ensures WellFormed(r)
    ensures r.entries == s.entries - {id}
    ensures id !in s.entries ==> r == s
    ensures forall x, y :: x in r.order && y in r.order ==>
              (IndexOf(r.order, x) < IndexOf(r.order, y) <==> IndexOf(s.order, x) < IndexOf(s.order, y))
  {
    var r := CacheState(Without(s.order, id), s.entries - {id});
    forall x, y | x in r.order && y in r.order
      ensures IndexOf(r.order, x) < IndexOf(r.order, y) <==> IndexOf(s.order, x) < IndexOf(s.order, y)
    {
      WithoutKeepsOrder(s.order, id, x, y);
    }
    r
  }

  /** The keys whose entries have expired at `now`. */
  function ExpiredKeys<User>(s: CacheState<User>, now: Millis): set<Id> {
    set k | k in s.entries && s.entries[k].IsExpired(now)
  }

  /**
   * The periodic sweep: removes exactly the entries that have expired at
   * `now` and keeps every other entry, its value and its place in the
   * recency order.
   */
  function ClearExpired<User>(s: CacheState<User>, now: Millis): (r: CacheState<User>)
    requires WellFormed(s)
    ensures WellFormed(r)
    ensures forall k :: k in r.entries <==> k in s.entries && !s.entries[k].IsExpired(now)
    ensures forall k :: k in r.entries ==> r.entries[k] == s.entries[k]
    ensures forall x, y :: x in r.order && y in r.order ==>
              (IndexOf(r.order, x) < IndexOf(r.order, y) <==> IndexOf(s.order, x) < IndexOf(s.order, y))
  {
    var expired := ExpiredKeys(s, now);
    var r := CacheState(Drop(s.order, expired), s.entries - expired);
    forall x, y | x in r.order && y in r.order
      ensures IndexOf(r.order, x) < IndexOf(r.order, y) <==> IndexOf(s.order, x) < IndexOf(s.order, y)
    {
      DropKeepsOrder(s.order, expired, x, y);
    }
    r
  }
}
