/**
 * The site-wide visit counter: a 32-bit counter of registered visits with
 * the times of the first and of the latest visit.
 */
module Visits {
  import opened Int32
  import opened Optional

  /** A point in time (a `LocalDateTime`), supplied by the caller instead of read from the clock. */
  type Time = int

  /** What `registerVisit` answers: the counter after this visit and the visit's time. */
  datatype VisitResponse = VisitResponse(totalVisits: int32, visitTime: Time)

  /** What `getVisitStats` answers; a missing time is a `null` in the response. */
  datatype VisitStatsResponse = VisitStatsResponse(totalVisits: int32, firstVisit: Option<Time>, lastVisit: Option<Time>)

  /**
   * The index, in the visit history, of the visit that last set the counter
   * to 1: visit number 1, 2^32 + 1, 2 * 2^32 + 1, ... (a 32-bit counter
   * comes back to 1 every 2^32 visits).
   */
  function RoundStart(n: nat): (i: nat)
    requires n > 0
    ensures i < n && (n <= MODULUS ==> i == 0)
  {
    (n - 1) - (n - 1) % MODULUS
  }

  /** The visit following `n` visits brings the counter to 1 exactly when `n` is a multiple of 2^32. */
  lemma WrapIsOne(n: nat)
    ensures Wrap(n + 1) == 1 <==> n % MODULUS == 0
  {
    if n % MODULUS == 0 {
      WrapCongruent(n + 1);
      WrapUnique(n + 1, 1);
    }
  }

  /** A visit that does not bring the counter to 1 stays in the round of the previous visits. */
  lemma NextRound(n: nat)
    ensures n % MODULUS == 0 ==> RoundStart(n + 1) == n
    ensures n > 0 && n % MODULUS != 0 ==> RoundStart(n + 1) == RoundStart(n)
  {
    if n > 0 && n % MODULUS != 0 {
      assert (n - 1) % MODULUS + 1 == n % MODULUS;
    }
  }

  class VisitService {
    var visitCounter: int32
    var firstVisitTime: Option<Time>
    var lastVisitTime: Option<Time>
    /** The time of every registered visit, oldest first. */
    ghost var history: seq<Time>

    /**
     * The counter is the number of visits as a wrapping `int`; before any
     * visit both times are missing; afterwards the last time is that of the
     * latest visit and the first time that of the visit that last brought
     * the counter to 1.
     */
    ghost predicate Valid()
      reads this
    {
      && visitCounter == Wrap(|history|)
      && (history == [] ==> firstVisitTime == None && lastVisitTime == None)
      && (history != [] ==>
            && lastVisitTime == Some(history[|history| - 1])
            && firstVisitTime == Some(history[RoundStart(|history|)]))
    }

    constructor ()
      ensures Valid() && history == []
    {
      visitCounter := 0;
      firstVisitTime := None;
      lastVisitTime := None;
      history := [];
    }

    /**
     * Registers a visit at `now`: the counter goes up by one, the first time
     * is set only when the counter becomes 1, the last time always.
     */
    method RegisterVisit(now: Time) returns (response: VisitResponse)
      requires Valid()
      modifies this
      ensures Valid()
      ensures history == old(history) + [now]
      ensures response == VisitResponse(visitCounter, now)
      ensures visitCounter == IncrementAndGet(old(visitCounter))
      ensures firstVisitTime == if visitCounter == 1 then Some(now) else old(firstVisitTime)
      ensures lastVisitTime == Some(now)
      ensures |history| <= MAX ==> response.totalVisits == |history|
      ensures |history| <= MODULUS ==> firstVisitTime == Some(history[0])
    {
      ghost var n := |history|;
      IncrementWrapped(n);
      WrapIsOne(n);
      NextRound(n);
      var count := IncrementAndGet(visitCounter);
      visitCounter := count;
      if count == 1 {
        firstVisitTime := Some(now);
      }
      lastVisitTime := Some(now);
      history := history + [now];
      response := VisitResponse(count, now);
    }

    /**
     * The statistics: all zero and missing before the counter has moved;
     * otherwise the counter with the stored first and last times, which are
     * then always present.
     */
    function GetVisitStats(): (stats: VisitStatsResponse)
      requires Valid()
      reads this
      ensures history == [] ==> stats == VisitStatsResponse(0, None, None)
      ensures stats.totalVisits == 0 ==> stats == VisitStatsResponse(0, None, None)
      ensures stats.totalVisits != 0 ==> stats.firstVisit.Some? && stats.lastVisit.Some?
      ensures 0 < |history| <= MAX ==>
                stats == VisitStatsResponse(|history|, Some(history[0]), Some(history[|history| - 1]))
    {
      if visitCounter == 0 then VisitStatsResponse(0, None, None)
      else VisitStatsResponse(visitCounter, firstVisitTime, lastVisitTime)
    }
  }
}
