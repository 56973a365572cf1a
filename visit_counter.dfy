/**
 * The per-URI hit counter fed by the request filter: a table from request
 * URI to a 32-bit counter, updated in place.
 */
module VisitCounters {
  import opened Int32

  class VisitCounterService {
    /** The counter of each URI counted since the last reset. */
    var urlCounters: map<string, int32>
    /** How many times each URI has been counted since the last reset. */
    ghost var hits: map<string, nat>

    /**
     * The table holds exactly the URIs counted at least once, and each
     * counter is the number of increments of its URI, as a wrapping `int`.
     */
    ghost predicate Valid()
      reads this
    {
      && urlCounters.Keys == hits.Keys
      && forall uri :: uri in hits ==> hits[uri] >= 1 && urlCounters[uri] == Wrap(hits[uri])
    }

    /** The number of increments of `uri` since the last reset. */
    ghost function Hits(uri: string): nat
      reads this
    {
      if uri in hits then hits[uri] else 0
    }

    constructor ()
      ensures Valid() && urlCounters == map[] && hits == map[]
    {
      urlCounters := map[];
      hits := map[];
    }

    /**
     * Counts one more request for `uri`, creating its counter at zero first
     * when there is none. Only the counter of `uri` changes, by exactly one
     * (with 32-bit wrap-around).
     */
    method Increment(uri: string)
      requires Valid()
      modifies this
      ensures Valid()
      ensures hits == old(hits)[uri := old(Hits(uri)) + 1]
      ensures GetCount(uri) == IncrementAndGet(old(GetCount(uri)))
      ensures old(GetCount(uri)) < MAX ==> GetCount(uri) == old(GetCount(uri)) + 1
      ensures forall other :: other != uri ==> GetCount(other) == old(GetCount(other))
      ensures urlCounters.Keys == old(urlCounters.Keys) + {uri}
    {
      ghost var n := Hits(uri);
      // computeIfAbsent(uri, k -> new AtomicInteger(0)), then incrementAndGet on that counter
      var counter := if uri in urlCounters then urlCounters[uri] else 0;
      var next := IncrementAndGet(counter);
      IncrementWrapped(n);
      urlCounters := urlCounters[uri := next];
      hits := hits[uri := n + 1];
      assert Valid() by {
        forall u | u in hits ensures hits[u] >= 1 && urlCounters[u] == Wrap(hits[u]) {
          if u != uri { assert u in old(hits); }
        }
      }
      assert urlCounters.Keys == old(urlCounters.Keys) + {uri};
      forall other | other != uri ensures GetCount(other) == old(GetCount(other)) {
        assert other in urlCounters <==> other in old(urlCounters);
      }
    }

    /**
     * The counter of `uri`, 0 for a URI not in the table; it is the number of
     * increments since the last reset, as a wrapping `int`. Reading never
     * adds the URI to the table.
     */
    function GetCount(uri: string): (count: int32)
      requires Valid()
      reads this
      ensures count == Wrap(Hits(uri))
      ensures uri !in hits ==> count == 0
      ensures 1 <= Hits(uri) <= MAX ==> count == Hits(uri) && count >= 1
    {
      if uri in urlCounters then urlCounters[uri] else 0
    }

    /** A copy of the table: exactly the URIs counted since the last reset, each with its count. */
    function GetAllCounts(): (counts: map<string, int32>)
      requires Valid()
      reads this
      ensures counts.Keys == hits.Keys
      ensures forall uri :: uri in counts ==> counts[uri] == GetCount(uri) && Hits(uri) >= 1
    {
      map uri | uri in urlCounters :: urlCounters[uri]
    }

    /** Forgets every counter. */
    method Reset()
      requires Valid()
      modifies this
      ensures Valid() && hits == map[]
      ensures GetAllCounts() == map[]
      ensures forall uri :: GetCount(uri) == 0
    {
      urlCounters := map[];
      hits := map[];
    }
  }
}
