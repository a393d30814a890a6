/**
 * Merging a received response into the routing table (distance-vector
 * update, section 3.9.2 of RFC 2453), and keeping the direct route to the
 * sending neighbour alive.
 *
 * Work the router hands to its thread pool is not run here: it is returned
 * as a list of events, in the order in which it was requested.
 */
module InputProcessing {
  import opened Common
  import opened RouteEntries
  import opened RoutingTables
  import opened Packet

  /** The merge only ever asks for deletion sweeps, never for a broadcast. */
  predicate OnlyDeletions(events: seq<Event>) {
    forall i :: 0 <= i < |events| ==> events[i].DeletionRequested?
  }

  /**
   * An entry is considered only if it is not about this router, carries the
   * IPv4 family, names a router id in range and carries a finite metric.
   */
  function ValidateEntry(t: Table, e: ResponseEntry): (ok: bool)
    ensures ok <==>
              && e.targetRouterId != t.routerId
              && e.afi == AfInet
              && MinId <= e.targetRouterId <= MaxId
              && MinMetric <= e.metric <= MaxMetric
  {
    if e.targetRouterId == t.routerId then false
    else if e.afi != AfInet then false
    else if e.targetRouterId < MinId || e.targetRouterId > MaxId then false
    else if e.metric < MinMetric || e.metric > MaxMetric then false
    else true
  }

  /** The advertised metric plus the cost of reaching the sender, capped at infinity. */
  function CandidateMetric(advertised: int, cost: int): (m: int)
    ensures m <= Infinity
    ensures m == Infinity <==> advertised + cost >= Infinity
    ensures m < Infinity ==> m == advertised + cost
  {
    var m := advertised + cost;
    if m > Infinity then Infinity else m
  }

  /**
   * Inserts a newly learned destination (flagged, live, reached through
   * `nextHop` on the port configured for it); a route at infinity is not
   * inserted. The configuration must know `nextHop` when a route is inserted.
   */
  function AddRoute(t: Table, e: ResponseEntry, newMetric: int, nextHop: int, now: int): (r: Table)
    requires Valid(t)
    requires newMetric != Infinity ==> nextHop in t.config
    ensures Valid(r)
    ensures newMetric == Infinity ==> r == t
    ensures newMetric != Infinity ==>
              && e.targetRouterId in r.routes
              && r.routes[e.targetRouterId]
                 == RouteEntry(t.config[nextHop].port, newMetric, nextHop, true, now + t.timeoutDelta, None)
    ensures forall k :: k != e.targetRouterId ==> (k in r.routes <==> k in t.routes)
    ensures forall k :: k != e.targetRouterId && k in t.routes ==> r.routes[k] == t.routes[k]
    ensures e.targetRouterId in t.routes ==> r.keys == t.keys
    ensures newMetric != Infinity && e.targetRouterId !in t.routes ==> r.keys == t.keys + [e.targetRouterId]
    ensures r == t.(keys := r.keys, routes := r.routes)
  {
    if newMetric == Infinity then t
    else
      var port := t.config[nextHop].port;
      var entry := NewRouteEntry(port, newMetric, Seconds(t.timeoutDelta), now, nextHop);
      var entry := entry.(gcTime := None, flag := true);
      RoutingTables.AddRoute(t, e.targetRouterId, entry)
  }

  /**
   * Takes the received route for a known destination: new metric, new next
   * hop, flagged. A route adopted at infinity keeps its old timeout and asks
   * for a deletion sweep; any other adopted route restarts its timeout.
   */
  function AdoptRoute(t: Table, id: int, newMetric: int, nextHop: int, now: int): (r: Outcome)
    requires Valid(t) && id in t.routes
    ensures Valid(r.0) && r.0.keys == t.keys && id in r.0.routes
    ensures var old_ := t.routes[id]; var e := r.0.routes[id];
            && e.metric == newMetric && e.learnedFrom == nextHop && e.flag && e.port == old_.port
            && (newMetric == Infinity ==> e.timeoutTime == old_.timeoutTime && e.gcTime == old_.gcTime)
            && (newMetric != Infinity ==> e.timeoutTime == now + t.timeoutDelta && e.gcTime.None?)
    ensures r.1 == if newMetric == Infinity then [DeletionRequested(id)] else []
    ensures forall k :: k != id ==> (k in r.0.routes <==> k in t.routes)
    ensures forall k :: k != id && k in t.routes ==> r.0.routes[k] == t.routes[k]
    ensures r.0 == t.(routes := r.0.routes)
  {
    var adopted := t.routes[id].(metric := newMetric, learnedFrom := nextHop, flag := true);
    if newMetric == Infinity then
      (RoutingTables.AddRoute(t, id, adopted), [DeletionRequested(id)])
    else
      (RoutingTables.AddRoute(t, id, UpdateTimeoutTime(adopted, t.timeoutDelta, None, now).0), [])
  }

  /**
   * The seconds component of a time difference: a negative difference counts
   * as that many days back plus a non-negative number of seconds.
   */
  function SecondsComponent(diff: int): (s: int)
    ensures 0 <= s < 86400
    ensures 0 <= diff < 86400 ==> s == diff
  {
    diff % 86400
  }

  /**
   * Whether an equally good route through a different neighbour replaces the
   * current one: when the seconds left before the current route times out are
   * at least half the timeout interval.
   */
  predicate SwitchToEqualRoute(timeoutTime: int, now: int, timeoutDelta: int) {
    2 * SecondsComponent(timeoutTime - now) >= timeoutDelta
  }

  /**
   * The switch as the program's own comment and section 3.9.2 of RFC 2453
   * describe it: once the current route is at least halfway to its timeout,
   * that is, when at most half the timeout interval is left.
   */
  predicate SwitchToEqualRouteIntended(timeoutTime: int, now: int, timeoutDelta: int) {
    2 * (timeoutTime - now) <= timeoutDelta
  }

  /** A finite candidate as good as the current route, but through another router. */
  predicate EqualRouteElsewhere(entry: RouteEntry, newMetric: int, nextHop: int) {
    newMetric != Infinity && newMetric == entry.metric && nextHop != entry.learnedFrom
  }

  /**
   * The decision for a known destination: trust the current next hop about
   * any change, always take a strictly shorter path, and take an equally
   * short path through another router only under `SwitchToEqualRoute`.
   */
  predicate Adopts(entry: RouteEntry, newMetric: int, nextHop: int, now: int, timeoutDelta: int) {
    || (nextHop == entry.learnedFrom && newMetric != entry.metric)
    || newMetric < entry.metric
    || (newMetric != Infinity && newMetric == entry.metric && nextHop != entry.learnedFrom
        && SwitchToEqualRoute(entry.timeoutTime, now, timeoutDelta))
  }

  /** Merges a candidate route to a destination already in the table. */
  function UpdateTable(t: Table, e: ResponseEntry, newMetric: int, nextHop: int, now: int): (r: Outcome)
    requires Valid(t) && e.targetRouterId in t.routes
    ensures Valid(r.0) && r.0.keys == t.keys && e.targetRouterId in r.0.routes
    // the current next hop reporting a finite metric always restarts the timeout
    ensures var before := t.routes[e.targetRouterId]; var after := r.0.routes[e.targetRouterId];
            nextHop == before.learnedFrom && newMetric != Infinity ==>
              after.timeoutTime == now + t.timeoutDelta && after.gcTime.None?
    // adoption: new metric and next hop, flagged; at infinity a deletion sweep instead of a new timeout
    ensures var before := t.routes[e.targetRouterId]; var after := r.0.routes[e.targetRouterId];
            Adopts(before, newMetric, nextHop, now, t.timeoutDelta) ==>
              && after.metric == newMetric && after.learnedFrom == nextHop && after.flag
              && after.port == before.port
              && (newMetric == Infinity ==> after.timeoutTime == before.timeoutTime && after.gcTime == before.gcTime)
              && (newMetric != Infinity ==> after.timeoutTime == now + t.timeoutDelta && after.gcTime.None?)
              && r.1 == (if newMetric == Infinity then [DeletionRequested(e.targetRouterId)] else [])
    // no adoption: the route keeps its metric, next hop and flag
    ensures var before := t.routes[e.targetRouterId]; var after := r.0.routes[e.targetRouterId];
            !Adopts(before, newMetric, nextHop, now, t.timeoutDelta) ==>
              && after == before.(timeoutTime := after.timeoutTime, gcTime := after.gcTime)
              && (nextHop != before.learnedFrom || newMetric == Infinity ==> after == before)
    // an unreachable candidate that is not adopted asks for a sweep unless the route is already unreachable
    ensures var before := t.routes[e.targetRouterId];
            !Adopts(before, newMetric, nextHop, now, t.timeoutDelta) ==>
              r.1 == (if newMetric == Infinity && before.metric != Infinity
                      then [DeletionRequested(e.targetRouterId)] else [])
    ensures r.0 == t.(routes := r.0.routes)
    ensures forall k :: k != e.targetRouterId ==> (k in r.0.routes <==> k in t.routes)
    ensures forall k :: k != e.targetRouterId && k in t.routes ==> r.0.routes[k] == t.routes[k]
    ensures OnlyDeletions(r.1)
  {
    var id := e.targetRouterId;
    var entry := t.routes[id];
    var t1 :=
      if nextHop == entry.learnedFrom && newMetric != Infinity
      then RoutingTables.AddRoute(t, id, UpdateTimeoutTime(entry, t.timeoutDelta, None, now).0)
      else t;
    var entry1 := t1.routes[id];
    if (nextHop == entry1.learnedFrom && newMetric != entry1.metric) || newMetric < entry1.metric then
      AdoptRoute(t1, id, newMetric, nextHop, now)
    else if newMetric == Infinity then
      // nothing to do when the stored route is already unreachable
      (t1, if entry1.metric != Infinity then [DeletionRequested(id)] else [])
    else if newMetric == entry1.metric && nextHop != entry1.learnedFrom then
      if SwitchToEqualRoute(entry1.timeoutTime, now, t.timeoutDelta) then
        AdoptRoute(t1, id, newMetric, nextHop, now)
      else
        (t1, [])
    else
      (t1, [])
  }

  /**
   * The merge with the intended switch rule: it differs from `UpdateTable`
   * only for an equally good route through another router.
   */
  function UpdateTableIntended(t: Table, e: ResponseEntry, newMetric: int, nextHop: int, now: int): (r: Outcome)
    requires Valid(t) && e.targetRouterId in t.routes
    ensures Valid(r.0) && r.0.keys == t.keys && e.targetRouterId in r.0.routes
    ensures !EqualRouteElsewhere(t.routes[e.targetRouterId], newMetric, nextHop) ==>
              r == UpdateTable(t, e, newMetric, nextHop, now)
    // an equal route elsewhere is taken exactly when at most half the interval is left
    ensures var before := t.routes[e.targetRouterId]; var after := r.0.routes[e.targetRouterId];
            EqualRouteElsewhere(before, newMetric, nextHop) ==>
              && (after.learnedFrom == nextHop <==> SwitchToEqualRouteIntended(before.timeoutTime, now, t.timeoutDelta))
              && (SwitchToEqualRouteIntended(before.timeoutTime, now, t.timeoutDelta) ==>
                    after == before.(learnedFrom := nextHop, flag := true, timeoutTime := now + t.timeoutDelta, gcTime := None))
              && (!SwitchToEqualRouteIntended(before.timeoutTime, now, t.timeoutDelta) ==> r.0 == t)
              && r.1 == []
    ensures forall k :: k != e.targetRouterId ==> (k in r.0.routes <==> k in t.routes)
    ensures forall k :: k != e.targetRouterId && k in t.routes ==> r.0.routes[k] == t.routes[k]
    ensures OnlyDeletions(r.1)
  {
    var id := e.targetRouterId;
    var entry := t.routes[id];
    if EqualRouteElsewhere(entry, newMetric, nextHop) then
      if SwitchToEqualRouteIntended(entry.timeoutTime, now, t.timeoutDelta) then
        AdoptRoute(t, id, newMetric, nextHop, now)
      else
        (t, [])
    else
      UpdateTable(t, e, newMetric, nextHop, now)
  }

  /** The table lookups an entry's processing performs are defined. */
  predicate LookupsDefined(t: Table, e: ResponseEntry, sender: int) {
    ValidateEntry(t, e) ==>
      && sender in t.routes
      && (e.targetRouterId !in t.routes && CandidateMetric(e.metric, t.routes[sender].metric) != Infinity
          ==> sender in t.config)
  }

  /** The keys `after` start with the keys `before`, in the same order. */
  predicate KeysExtend(before: seq<int>, after: seq<int>) {
    |before| <= |after| && after[..|before|] == before
  }

  lemma {:induction false} KeysExtendTrans(a: seq<int>, b: seq<int>, c: seq<int>)
    requires KeysExtend(a, b) && KeysExtend(b, c)
    ensures KeysExtend(a, c)
  {
    assert c[..|a|] == c[..|b|][..|a|];
  }

  /**
   * One received entry: dropped when invalid, otherwise its metric plus the
   * sender's current metric is merged into the route for its destination.
   */
  function ProcessEntry(t: Table, e: ResponseEntry, sender: int, now: int): (r: Outcome)
    requires Valid(t) && LookupsDefined(t, e, sender)
    ensures Valid(r.0)
    ensures !ValidateEntry(t, e) ==> r == (t, [])
    ensures ValidateEntry(t, e) && e.targetRouterId in t.routes ==>
              r == UpdateTable(t, e, CandidateMetric(e.metric, t.routes[sender].metric), sender, now)
    ensures ValidateEntry(t, e) && e.targetRouterId !in t.routes ==>
              r.1 == [] &&
              var m := CandidateMetric(e.metric, t.routes[sender].metric);
              && (m == Infinity ==> r.0 == t)
              && (m != Infinity ==> e.targetRouterId in r.0.routes && r.0.keys == t.keys + [e.targetRouterId]
                                    && r.0.routes[e.targetRouterId].metric == m
                                    && r.0.routes[e.targetRouterId].learnedFrom == sender)
    ensures r.0 == t.(keys := r.0.keys, routes := r.0.routes)
    ensures forall k :: k in t.routes ==> k in r.0.routes
    ensures forall k :: k != e.targetRouterId && k in t.routes ==> r.0.routes[k] == t.routes[k]
    ensures forall k :: k != e.targetRouterId ==> (k in r.0.routes <==> k in t.routes)
    ensures KeysExtend(t.keys, r.0.keys)
    ensures OnlyDeletions(r.1)
  {
    if !ValidateEntry(t, e) then (t, [])
    else
      var newMetric := CandidateMetric(e.metric, t.routes[sender].metric);
      if e.targetRouterId in t.routes then
        UpdateTable(t, e, newMetric, sender, now)
      else
        (AddRoute(t, e, newMetric, sender, now), [])
  }

  /** The sender is known both as a route and as a configured neighbour, or no entry is usable. */
  predicate PacketLookupsDefined(t: Table, entries: seq<ResponseEntry>, sender: int) {
    || (sender in t.routes && sender in t.config)
    || (forall j :: 0 <= j < |entries| ==> !ValidateEntry(t, entries[j]))
  }

  /** The entries of one packet, merged in order. */
  function ProcessEntries(t: Table, entries: seq<ResponseEntry>, sender: int, now: int): (r: Outcome)
    requires Valid(t) && PacketLookupsDefined(t, entries, sender)
    decreases |entries|
    ensures Valid(r.0)
    ensures r.0 == t.(keys := r.0.keys, routes := r.0.routes)
    ensures forall k :: k in t.routes ==> k in r.0.routes
    ensures KeysExtend(t.keys, r.0.keys)
    ensures OnlyDeletions(r.1)
  {
    if |entries| == 0 then (t, [])
    else
      var first := ProcessEntry(t, entries[0], sender, now);
      assert PacketLookupsDefined(first.0, entries[1..], sender);
      var rest := ProcessEntries(first.0, entries[1..], sender, now);
      KeysExtendTrans(t.keys, first.0.keys, rest.0.keys);
      (rest.0, first.1 + rest.1)
  }

  /** Inserts the direct route to a configured neighbour at its configured cost. */
  function AddDiscovered(t: Table, sender: int, now: int): (r: Table)
    requires Valid(t)
    ensures Valid(r)
    ensures sender !in t.config ==> r == t
    ensures sender in t.config && t.config[sender].cost != Infinity ==>
              && sender in r.routes
              && r.routes[sender] == RouteEntry(t.config[sender].port, t.config[sender].cost, sender, true,
                                                now + t.timeoutDelta, None)
    ensures sender in t.config && t.config[sender].cost == Infinity ==> r == t
  {
    if sender !in t.config then t
    else
      var cost := t.config[sender].cost;
      AddRoute(t, ResponseEntry(AfInet, sender, cost), cost, sender, now)
  }

  /**
   * Whether the direct route to a configured sender is (re)inserted at its
   * configured cost rather than only having its timeout restarted: it is
   * missing, the configured cost is no worse than its metric, or the route
   * it points through is missing or unreachable.
   */
  predicate ReinstallsDirectRoute(t: Table, sender: int)
    requires sender in t.config
  {
    || sender !in t.routes
    || t.config[sender].cost <= t.routes[sender].metric
    || t.routes[sender].learnedFrom !in t.routes
    || t.routes[t.routes[sender].learnedFrom].metric == Infinity
  }

  /** Keeps the direct route to a configured sender alive, whatever the packet carried. */
  function RefreshDirectRoute(t: Table, sender: int, now: int): (r: Table)
    requires Valid(t)
    ensures Valid(r)
    ensures sender !in t.config ==> r == t
    ensures sender in t.config && ReinstallsDirectRoute(t, sender) ==> r == AddDiscovered(t, sender, now)
    ensures sender in t.config && !ReinstallsDirectRoute(t, sender) ==>
              && r.keys == t.keys && sender in r.routes
              && r.routes[sender] == t.routes[sender].(timeoutTime := now + t.timeoutDelta, gcTime := None)
    ensures forall k :: k != sender ==> (k in r.routes <==> k in t.routes)
    ensures forall k :: k != sender && k in t.routes ==> r.routes[k] == t.routes[k]
  {
    if sender !in t.config then t
    else if sender !in t.routes then AddDiscovered(t, sender, now)
    else if t.config[sender].cost <= t.routes[sender].metric then AddDiscovered(t, sender, now)
    else if t.routes[sender].learnedFrom !in t.routes
         || t.routes[t.routes[sender].learnedFrom].metric == Infinity then AddDiscovered(t, sender, now)
    else RoutingTables.AddRoute(t, sender, UpdateTimeoutTime(t.routes[sender], t.timeoutDelta, None, now).0)
  }

  /**
   * One received packet: its entries are merged only when the packet was
   * accepted (`accepted` is the verdict of the packet check, which is not
   * part of this model); the direct route to the sender is refreshed either way.
   */
  function ProcessPacket(t: Table, p: ResponsePacket, accepted: bool, now: int): (r: Outcome)
    requires Valid(t)
    requires accepted ==> PacketLookupsDefined(t, p.entries, p.senderRouterId)
    ensures Valid(r.0)
    ensures !accepted ==> r == (RefreshDirectRoute(t, p.senderRouterId, now), [])
    // an accepted packet's merge decides every other route and all the work asked for
    ensures accepted ==> r.1 == ProcessEntries(t, p.entries, p.senderRouterId, now).1
    ensures accepted ==> var merged := ProcessEntries(t, p.entries, p.senderRouterId, now).0;
              forall k :: k != p.senderRouterId ==>
                (k in r.0.routes <==> k in merged.routes) && (k in merged.routes ==> r.0.routes[k] == merged.routes[k])
    // a configured, reachable sender always leaves with a live direct route
    ensures p.senderRouterId in t.config && t.config[p.senderRouterId].cost != Infinity ==>
              && p.senderRouterId in r.0.routes
              && r.0.routes[p.senderRouterId].timeoutTime == now + t.timeoutDelta
              && r.0.routes[p.senderRouterId].gcTime.None?
    ensures OnlyDeletions(r.1)
    ensures forall k :: k in t.routes ==> k in r.0.routes
    ensures r.0.routerId == t.routerId && r.0.config == t.config
  {
    var merged := if accepted then ProcessEntries(t, p.entries, p.senderRouterId, now) else (t, []);
    (RefreshDirectRoute(merged.0, p.senderRouterId, now), merged.1)
  }

  /* ---------------------------------------------------------------------- */
  /* Properties of the merge                                                */
  /* ---------------------------------------------------------------------- */

  /** Every stored metric lies between the minimum metric and infinity. */
  predicate MetricsInRange(t: Table) {
    forall k :: k in t.routes ==> MinMetric <= t.routes[k].metric <= Infinity
  }

  /** Every configured link cost is a finite metric, as the configuration check demands. */
  predicate CostsInRange(t: Table) {
    forall n :: n in t.config ==> MinMetric <= t.config[n].cost <= MaxMetric
  }

  lemma {:induction false} ProcessEntryKeepsMetricsInRange(t: Table, e: ResponseEntry, sender: int, now: int)
    requires Valid(t) && LookupsDefined(t, e, sender) && MetricsInRange(t)
    ensures MetricsInRange(ProcessEntry(t, e, sender, now).0)
  {
    if ValidateEntry(t, e) {
      var m := CandidateMetric(e.metric, t.routes[sender].metric);
      assert MinMetric <= m <= Infinity;
    }
  }

  /** Merging a packet's entries keeps every metric between 1 and infinity. */
  lemma {:induction false} ProcessEntriesKeepsMetricsInRange(t: Table, entries: seq<ResponseEntry>, sender: int, now: int)
    requires Valid(t) && PacketLookupsDefined(t, entries, sender) && MetricsInRange(t)
    ensures MetricsInRange(ProcessEntries(t, entries, sender, now).0)
    decreases |entries|
  {
    if |entries| > 0 {
      var first := ProcessEntry(t, entries[0], sender, now);
      ProcessEntryKeepsMetricsInRange(t, entries[0], sender, now);
      assert PacketLookupsDefined(first.0, entries[1..], sender);
      ProcessEntriesKeepsMetricsInRange(first.0, entries[1..], sender, now);
    }
  }

  /** Refreshing the direct route keeps every metric in range when the configured costs are. */
  lemma {:induction false} RefreshKeepsMetricsInRange(t: Table, sender: int, now: int)
    requires Valid(t) && MetricsInRange(t) && CostsInRange(t)
    ensures MetricsInRange(RefreshDirectRoute(t, sender, now))
  {
    if sender in t.config {
      assert MinMetric <= t.config[sender].cost <= MaxMetric;
    }
  }

  /**
   * With link costs that passed the configuration check, processing a packet
   * keeps every metric between 1 and infinity.
   */
  lemma {:induction false} ProcessPacketKeepsMetricsInRange(t: Table, p: ResponsePacket, accepted: bool, now: int)
    requires Valid(t) && MetricsInRange(t) && CostsInRange(t)
    requires accepted ==> PacketLookupsDefined(t, p.entries, p.senderRouterId)
    ensures MetricsInRange(ProcessPacket(t, p, accepted, now).0)
  {
    var merged := if accepted then ProcessEntries(t, p.entries, p.senderRouterId, now) else (t, []);
    if accepted {
      ProcessEntriesKeepsMetricsInRange(t, p.entries, p.senderRouterId, now);
    }
    assert merged.0.config == t.config;
    RefreshKeepsMetricsInRange(merged.0, p.senderRouterId, now);
  }

  /**
   * An equally good route through another neighbour is taken when the
   * current route has exactly half its timeout interval left, and not one
   * second later.
   */
  lemma {:induction false} EqualMetricSwitchBoundary(t: Table, e: ResponseEntry, via: int, now: int)
    requires Valid(t) && e.targetRouterId in t.routes
    requires t.timeoutDelta % 2 == 0 && 2 <= t.timeoutDelta < 2 * 86400
    requires t.routes[e.targetRouterId].metric == 3 && t.routes[e.targetRouterId].learnedFrom != via
    ensures var id := e.targetRouterId;
            var atHalf := t.(routes := t.routes[id := t.routes[id].(timeoutTime := now + t.timeoutDelta / 2)]);
            var belowHalf := t.(routes := t.routes[id := t.routes[id].(timeoutTime := now + t.timeoutDelta / 2 - 1)]);
            && UpdateTable(atHalf, e, 3, via, now).0.routes[id].learnedFrom == via
            && UpdateTable(belowHalf, e, 3, via, now).0.routes[id] == belowHalf.routes[id]
  {
    var id := e.targetRouterId;
    var atHalf := t.(routes := t.routes[id := t.routes[id].(timeoutTime := now + t.timeoutDelta / 2)]);
    var belowHalf := t.(routes := t.routes[id := t.routes[id].(timeoutTime := now + t.timeoutDelta / 2 - 1)]);
    assert Valid(atHalf) && Valid(belowHalf);
    assert SwitchToEqualRoute(now + t.timeoutDelta / 2, now, t.timeoutDelta);
    assert !SwitchToEqualRoute(now + t.timeoutDelta / 2 - 1, now, t.timeoutDelta);
  }

  /**
   * The intended rule's boundary: an equal route through another neighbour is
   * taken with exactly half the timeout left, and not with one second more.
   */
  lemma {:induction false} EqualMetricSwitchIntendedBoundary(t: Table, e: ResponseEntry, via: int, now: int)
    requires Valid(t) && e.targetRouterId in t.routes
    requires t.timeoutDelta % 2 == 0 && 2 <= t.timeoutDelta
    requires t.routes[e.targetRouterId].metric == 3 && t.routes[e.targetRouterId].learnedFrom != via
    ensures var id := e.targetRouterId;
            var atHalf := t.(routes := t.routes[id := t.routes[id].(timeoutTime := now + t.timeoutDelta / 2)]);
            var aboveHalf := t.(routes := t.routes[id := t.routes[id].(timeoutTime := now + t.timeoutDelta / 2 + 1)]);
            && UpdateTableIntended(atHalf, e, 3, via, now).0.routes[id].learnedFrom == via
            && UpdateTableIntended(aboveHalf, e, 3, via, now).0.routes[id] == aboveHalf.routes[id]
  {
    var id := e.targetRouterId;
    var atHalf := t.(routes := t.routes[id := t.routes[id].(timeoutTime := now + t.timeoutDelta / 2)]);
    var aboveHalf := t.(routes := t.routes[id := t.routes[id].(timeoutTime := now + t.timeoutDelta / 2 + 1)]);
    assert Valid(atHalf) && Valid(aboveHalf);
    assert SwitchToEqualRouteIntended(now + t.timeoutDelta / 2, now, t.timeoutDelta);
    assert !SwitchToEqualRouteIntended(now + t.timeoutDelta / 2 + 1, now, t.timeoutDelta);
  }

  /**
   * The two rules are opposite away from the boundary: with one second more
   * than half the interval left the code switches and the intended rule does
   * not; with one second less it is the other way round.
   */
  lemma {:induction false} EqualMetricSwitchRulesDisagree(t: Table, e: ResponseEntry, via: int, now: int)
    requires Valid(t) && e.targetRouterId in t.routes
    requires t.timeoutDelta % 2 == 0 && 2 <= t.timeoutDelta < 2 * 86400 - 2
    requires t.routes[e.targetRouterId].metric == 3 && t.routes[e.targetRouterId].learnedFrom != via
    ensures var id := e.targetRouterId;
            var aboveHalf := t.(routes := t.routes[id := t.routes[id].(timeoutTime := now + t.timeoutDelta / 2 + 1)]);
            var belowHalf := t.(routes := t.routes[id := t.routes[id].(timeoutTime := now + t.timeoutDelta / 2 - 1)]);
            && UpdateTable(aboveHalf, e, 3, via, now).0.routes[id].learnedFrom == via
            && UpdateTableIntended(aboveHalf, e, 3, via, now).0.routes[id].learnedFrom != via
            && UpdateTable(belowHalf, e, 3, via, now).0.routes[id].learnedFrom != via
            && UpdateTableIntended(belowHalf, e, 3, via, now).0.routes[id].learnedFrom == via
  {
    var id := e.targetRouterId;
    var aboveHalf := t.(routes := t.routes[id := t.routes[id].(timeoutTime := now + t.timeoutDelta / 2 + 1)]);
    var belowHalf := t.(routes := t.routes[id := t.routes[id].(timeoutTime := now + t.timeoutDelta / 2 - 1)]);
    assert Valid(aboveHalf) && Valid(belowHalf);
    assert SwitchToEqualRoute(now + t.timeoutDelta / 2 + 1, now, t.timeoutDelta);
    assert !SwitchToEqualRouteIntended(now + t.timeoutDelta / 2 + 1, now, t.timeoutDelta);
    assert !SwitchToEqualRoute(now + t.timeoutDelta / 2 - 1, now, t.timeoutDelta);
    assert SwitchToEqualRouteIntended(now + t.timeoutDelta / 2 - 1, now, t.timeoutDelta);
  }

  /**
   * Neighbour 5, one hop away, advertises destination 9 at metric 3: the
   * table gains a route to 9 at metric 4 through 5.
   */
  lemma {:induction false} LearnRouteExample(t: Table, now: int)
    requires Valid(t) && t.routerId != 9 && 9 !in t.routes
    requires 5 in t.routes && t.routes[5].metric == 1 && 5 in t.config && t.config[5].cost == 1
    ensures var p := ResponsePacket(2, 2, 5, [ResponseEntry(AfInet, 9, 3)]);
            var r := ProcessPacket(t, p, true, now).0;
            9 in r.routes && r.routes[9].metric == 4 && r.routes[9].learnedFrom == 5 && r.routes[9].flag
  {
    var p := ResponsePacket(2, 2, 5, [ResponseEntry(AfInet, 9, 3)]);
    var first := ProcessEntry(t, p.entries[0], 5, now);
    assert ProcessEntries(t, p.entries, 5, now).0 == first.0 by {
      assert p.entries[1..] == [];
    }
    assert first.0.routes[5] == t.routes[5];
  }
}
