/**
 * The user cache object: an access-ordered linked hash map from user id to a
 * time-stamped entry, updated in place by every operation. Each method is
 * proved to leave the cache in the state the matching function of
 * `CacheSpec` describes; what those functions guarantee is proved there and
 * in `CacheProperties`.
 */
module Cache {
  import opened Recency
  import opened Optional
  import opened CacheSpec

  class UserCache<User> {
    /** The keys in linked-list order, least recently used first. */
    var order: seq<Id>
    /** The hash table: the entry stored under each key. */
    var entries: map<Id, CacheEntry<User>>

    /** The cache's content as a value. */
    function State(): CacheState<User>
      reads this
    {
      CacheState(order, entries)
    }

    ghost predicate Valid()
      reads this
    {
      WellFormed(State())
    }

    /** A new cache is empty. */
    constructor ()
      ensures Valid() && State() == Empty()
    {
      order := [];
      entries := map[];
    }

    /**
     * Looks `id` up at time `now`. Returns the user on a live hit; purges an
     * expired entry and reports a miss.
     */
    method Get(id: Id, now: Millis) returns (user: Option<User>)
      requires Valid()
      modifies this
      ensures Valid()
      ensures (State(), user) == CacheSpec.Get(old(State()), id, now)
    {
      if id !in entries {
        return None;
      }
      var entry := entries[id];
      // an access-ordered lookup relinks the key at the most-recently-used end
      order := Touch(order, id);
      if entry.IsExpired(now) {
        // the key is the last one linked, so unlinking it drops the tail
        order := order[..|order| - 1];
        entries := entries - {id};
        user := None;
      } else {
        user := Some(entry.user);
      }
    }

    /**
     * Stores `user` under `id` with timestamp `now`; a new key that takes the
     * cache past `MAX_SIZE` entries makes it evict its eldest entry.
     */
    method Put(id: Id, user: User, now: Millis)
      requires Valid()
      modifies this
      ensures Valid()
      ensures State() == CacheSpec.Put(old(State()), id, user, now)
    {
      var present := id in entries;
      SizeIsOrderLength(State());
      ghost var before := State();
      entries := entries[id := CacheEntry(user, now)];
      if present {
        order := Touch(order, id);
      } else {
        AppendFresh(order, id);
        order := order + [id];
        // removeEldestEntry, consulted after each insertion of a new key
        assert |entries| == |before.order| + 1;
        if |entries| > MAX_SIZE {
          var eldest := order[0];
          order := order[1..];
          entries := entries - {eldest};
        }
      }
      assert State() == CacheSpec.Put(before, id, user, now);
    }

    /** Deletes the entry of `id`, if there is one. */
    method Remove(id: Id)
      requires Valid()
      modifies this
      ensures Valid()
      ensures State() == CacheSpec.Remove(old(State()), id)
    {
      order := Without(order, id);
      entries := entries - {id};
    }

    /**
     * The sweep: removes, in one pass, every entry that has expired at
     * `now` (`entrySet().removeIf(...)`); the surviving keys stay linked in
     * their order.
     */
    method ClearExpired(now: Millis)
      requires Valid()
      modifies this
      ensures Valid()
      ensures State() == CacheSpec.ClearExpired(old(State()), now)
    {
      var expired := set k | k in entries && entries[k].IsExpired(now);
      entries := entries - expired;
      order := Drop(order, expired);
    }

    /** Removes every entry. */
    method Clear()
      modifies this
      ensures Valid() && State() == Empty()
    {
      order := [];
      entries := map[];
    }

    /** The shutdown hook: after the sweeper is stopped, the cache is emptied. */
    method Cleanup()
      modifies this
      ensures Valid() && State() == Empty()
    {
      Clear();
    }
  }
}
