/**
 * One row of the routing table: the route to a single destination router,
 * with its absolute timeout and garbage-collection deadlines (in seconds).
 */
module RouteEntries {
  import opened Common

  /** `learnedFrom` is the next hop; `gcTime` is None while the route is live. */
  datatype RouteEntry = RouteEntry(
    port: int,
    metric: int,
    learnedFrom: int,
    flag: bool,
    timeoutTime: int,
    gcTime: Option<int>)

  /** The constructor's timeout argument: a number of seconds from now, or an absolute time. */
  datatype TimeoutArg = Seconds(delta: int) | At(time: int)

  /** The next hop recorded for a route read from the configuration. */
  const NotLearned: int := -1

  /** A new, unflagged route without a garbage-collection deadline. */
  function NewRouteEntry(port: int, metric: int, timeout: TimeoutArg, now: int, learnedFrom: int := NotLearned): (e: RouteEntry)
    ensures e.port == port && e.metric == metric && e.learnedFrom == learnedFrom
    ensures !e.flag && e.gcTime.None?
    ensures timeout.Seconds? ==> e.timeoutTime == now + timeout.delta
    ensures timeout.At? ==> e.timeoutTime == timeout.time
  {
    var deadline := match timeout
      case Seconds(d) => now + d
      case At(t) => t;
    RouteEntry(port, metric, learnedFrom, false, deadline, None)
  }

  /** A copy built through the constructor with an absolute deadline. */
  function ShallowCopy(e: RouteEntry): (c: RouteEntry)
    ensures c == e
  {
    // an absolute deadline does not read the clock, so any `now` will do
    var copy := NewRouteEntry(e.port, e.metric, At(e.timeoutTime), e.timeoutTime, e.learnedFrom);
    copy.(flag := e.flag, gcTime := e.gcTime)
  }

  /**
   * Restarts the timeout `delta` seconds after the initial time (the given
   * one, otherwise `now`) and drops any garbage-collection deadline.
   * Returns the entry and the initial time used.
   */
  function UpdateTimeoutTime(e: RouteEntry, delta: int, initial: Option<int>, now: int): (r: (RouteEntry, int))
    ensures r.1 == (if initial.Some? then initial.value else now)
    ensures r.0.timeoutTime == r.1 + delta
    ensures r.0.gcTime.None?
    ensures r.0.port == e.port && r.0.metric == e.metric
    ensures r.0.learnedFrom == e.learnedFrom && r.0.flag == e.flag
  {
    var start := initial.GetOr(now);
    (e.(timeoutTime := start + delta, gcTime := None), start)
  }

  /**
   * Sets the garbage-collection deadline `delta` seconds after the initial
   * time. Returns the entry and the initial time used.
   */
  function SetGarbageCollectionTime(e: RouteEntry, delta: int, initial: Option<int>, now: int): (r: (RouteEntry, int))
    ensures r.1 == (if initial.Some? then initial.value else now)
    ensures r.0.gcTime == Some(r.1 + delta)
    ensures r.0.timeoutTime == e.timeoutTime
    ensures r.0.port == e.port && r.0.metric == e.metric
    ensures r.0.learnedFrom == e.learnedFrom && r.0.flag == e.flag
  {
    var start := initial.GetOr(now);
    (e.(gcTime := Some(start + delta)), start)
  }

  /** Restarting the timeout after a garbage-collection deadline was set cancels the deadline. */
  lemma {:induction false} TimeoutAfterGcClearsGc(e: RouteEntry, gcDelta: int, timeoutDelta: int, i1: Option<int>, i2: Option<int>, now: int)
    ensures var g := SetGarbageCollectionTime(e, gcDelta, i1, now).0;
            var u := UpdateTimeoutTime(g, timeoutDelta, i2, now).0;
            u.gcTime.None? && u == e.(timeoutTime := u.timeoutTime, gcTime := None)
  {
  }
}
