/**
 * The router's outgoing side: building the responses for every destination,
 * expiring routes whose timeout has passed (section 3.8 of RFC 2453), with
 * triggered-update suppression (section 3.10.1), and removing routes whose
 * garbage-collection deadline has been reached.
 */
module OutputProcessing {
  import opened Common
  import opened RouteEntries
  import opened RoutingTables
  import opened Packet

  /**
   * Expires the route to `id`: unreachable, flagged, garbage collection due
   * `gcDelta` seconds from now, timeout left as it was. A triggered broadcast
   * is asked for unless the periodic update comes first.
   */
  function TimeoutProcessing(t: Table, id: int, now: int, delay: int): (r: Outcome)
    requires Valid(t) && id in t.routes && TriggeredDelay(delay)
    ensures Valid(r.0) && r.0.keys == t.keys && id in r.0.routes
    ensures r.0.routes[id] == t.routes[id].(metric := Infinity, flag := true, gcTime := Some(now + t.gcDelta))
    ensures forall k :: k != id ==> (k in r.0.routes <==> k in t.routes)
    ensures forall k :: k != id && k in t.routes ==> r.0.routes[k] == t.routes[k]
    ensures r.0 == t.(routes := r.0.routes, triggeredUpdateTime := r.0.triggeredUpdateTime)
    ensures r.0.triggeredUpdateTime == Some(now + delay)
    ensures r.1 == (if now + delay < t.schedUpdateTime then [BroadcastRequested] else [])
  {
    var expired := SetGarbageCollectionTime(t.routes[id], t.gcDelta, None, now).0;
    var expired := expired.(metric := Infinity, flag := true);
    var t1 := RoutingTables.AddRoute(t, id, expired);
    var (t2, canUpdate) := SetTriggeredUpdateTime(t1, now, delay);
    (t2, if canUpdate then [BroadcastRequested] else [])
  }

  /**
   * Timeout processing as written: the route is expired the same way, but the
   * triggered-update answer never comes back true, so no broadcast is asked for.
   */
  function TimeoutProcessingAsWritten(t: Table, id: int, now: int, delay: int): (r: Outcome)
    requires Valid(t) && id in t.routes && TriggeredDelay(delay)
    ensures r.0 == TimeoutProcessing(t, id, now, delay).0
    ensures r.1 == []
  {
    var expired := SetGarbageCollectionTime(t.routes[id], t.gcDelta, None, now).0;
    var expired := expired.(metric := Infinity, flag := true);
    var t1 := RoutingTables.AddRoute(t, id, expired);
    var (t2, answer) := SetTriggeredUpdateTimeAsWritten(t1, now, delay);
    (t2, if answer == Some(true) then [BroadcastRequested] else [])
  }

  /**
   * Garbage collection of one route, as written: the route is removed when
   * its deadline is set and NOT YET reached (see the findings).
   */
  function GcProcessing(t: Table, id: int, entry: RouteEntry, now: int): (r: Table)
    requires Valid(t)
    ensures Valid(r)
    ensures id in r.routes <==> id in t.routes && !(entry.gcTime.Some? && entry.gcTime.value >= now)
    ensures forall k :: k != id ==> (k in r.routes <==> k in t.routes)
    ensures forall k :: k in r.routes ==> r.routes[k] == t.routes[k]
    ensures r == t.(keys := r.keys, routes := r.routes)
  {
    if id in t.routes && entry.gcTime.Some? && entry.gcTime.value >= now then RemoveRoute(t, id)
    else t
  }

  /** Garbage collection of one route once its deadline has been reached. */
  function GcProcessingCorrected(t: Table, id: int, entry: RouteEntry, now: int): (r: Table)
    requires Valid(t)
    ensures Valid(r)
    ensures id in r.routes <==> id in t.routes && !(entry.gcTime.Some? && entry.gcTime.value <= now)
    ensures forall k :: k != id ==> (k in r.routes <==> k in t.routes)
    ensures forall k :: k in r.routes ==> r.routes[k] == t.routes[k]
    ensures r == t.(keys := r.keys, routes := r.routes)
  {
    if id in t.routes && entry.gcTime.Some? && entry.gcTime.value <= now then RemoveRoute(t, id)
    else t
  }

  /** Each expiry draws its own triggered-update delay. */
  predicate DelaysValid(delays: seq<int>) {
    forall i :: 0 <= i < |delays| ==> TriggeredDelay(delays[i])
  }

  /** What the sweep as written does to a route it visits. */
  predicate SweptAsWritten(before: RouteEntry, k: int, r: Table, now: int, gcDelta: int) {
    if before.timeoutTime <= now then
      k in r.routes && r.routes[k] == before.(metric := Infinity, flag := true, gcTime := Some(now + gcDelta))
    else if before.gcTime.Some? && before.gcTime.value >= now then
      k !in r.routes
    else
      k in r.routes && r.routes[k] == before
  }

  /** The sweep's treatment of one route, as written. */
  function SweepStep(t: Table, id: int, now: int, delay: int): (r: Outcome)
    requires Valid(t) && TriggeredDelay(delay)
    ensures Valid(r.0)
    ensures r.0 == t.(keys := r.0.keys, routes := r.0.routes, triggeredUpdateTime := r.0.triggeredUpdateTime)
    ensures forall k :: k != id ==> (k in r.0.routes <==> k in t.routes)
    ensures forall k :: k != id && k in t.routes ==> r.0.routes[k] == t.routes[k]
    ensures id !in t.routes ==> r == (t, [])
    ensures id in t.routes ==> SweptAsWritten(t.routes[id], id, r.0, now, t.gcDelta)
    ensures forall i :: 0 <= i < |r.1| ==> r.1[i] == BroadcastRequested
    ensures id in t.routes && t.routes[id].timeoutTime > now ==> r.1 == []
  {
    if id !in t.routes then (t, [])
    else
      var entry := t.routes[id];
      if entry.timeoutTime <= now then TimeoutProcessing(t, id, now, delay)
      else if entry.gcTime.Some? then (GcProcessing(t, id, entry, now), [])
      else (t, [])
  }

  /** A visited route's outcome survives later steps that leave it alone. */
  lemma {:induction false} SweptAsWrittenKept(before: RouteEntry, k: int, r1: Table, r2: Table, now: int, gcDelta: int)
    requires SweptAsWritten(before, k, r1, now, gcDelta)
    requires k in r1.routes <==> k in r2.routes
    requires k in r1.routes ==> r1.routes[k] == r2.routes[k]
    ensures SweptAsWritten(before, k, r2, now, gcDelta)
  {
  }

  /** The sweep as written, over the ids `ids` taken from the table before it started. */
  function Sweep(t: Table, ids: seq<int>, now: int, delays: seq<int>): (r: Outcome)
    requires Valid(t) && Distinct(ids) && |delays| == |ids| && DelaysValid(delays)
    decreases |ids|
    ensures Valid(r.0)
    ensures r.0 == t.(keys := r.0.keys, routes := r.0.routes, triggeredUpdateTime := r.0.triggeredUpdateTime)
    ensures forall i :: 0 <= i < |r.1| ==> r.1[i] == BroadcastRequested
  {
    if |ids| == 0 then (t, [])
    else
      var step := SweepStep(t, ids[0], now, delays[0]);
      DistinctSuffix(ids, 1);
      var rest := Sweep(step.0, ids[1..], now, delays[1..]);
      (rest.0, step.1 + rest.1)
  }

  /**
   * Each visited route is treated as the sweep step says, routes outside
   * `ids` are untouched, and an id with no route gains none.
   */
  lemma {:induction false} SweepTreats(t: Table, ids: seq<int>, now: int, delays: seq<int>)
    requires Valid(t) && Distinct(ids) && |delays| == |ids| && DelaysValid(delays)
    decreases |ids|
    ensures var r := Sweep(t, ids, now, delays).0;
            && (forall k :: k !in ids ==> (k in r.routes <==> k in t.routes))
            && (forall k :: k !in ids && k in t.routes ==> r.routes[k] == t.routes[k])
            && (forall k :: k in ids && k !in t.routes ==> k !in r.routes)
            && (forall k :: k in ids && k in t.routes ==> SweptAsWritten(t.routes[k], k, r, now, t.gcDelta))
  {
    if |ids| > 0 {
      var id := ids[0];
      var step := SweepStep(t, id, now, delays[0]);
      DistinctSuffix(ids, 1);
      assert id !in ids[1..];
      SweepTreats(step.0, ids[1..], now, delays[1..]);
      var rest := Sweep(step.0, ids[1..], now, delays[1..]);
      assert Sweep(t, ids, now, delays).0 == rest.0;
      assert forall k :: k in ids && k != id ==> k in ids[1..];
      if id in t.routes {
        SweptAsWrittenKept(t.routes[id], id, step.0, rest.0, now, t.gcDelta);
      }
    }
  }

  /** With no visited route past its timeout, the sweep asks for nothing. */
  lemma {:induction false} SweepQuiet(t: Table, ids: seq<int>, now: int, delays: seq<int>)
    requires Valid(t) && Distinct(ids) && |delays| == |ids| && DelaysValid(delays)
    requires forall k :: k in ids && k in t.routes ==> t.routes[k].timeoutTime > now
    decreases |ids|
    ensures Sweep(t, ids, now, delays).1 == []
  {
    if |ids| > 0 {
      var id := ids[0];
      var step := SweepStep(t, id, now, delays[0]);
      DistinctSuffix(ids, 1);
      assert id in ids;
      assert step.1 == [];
      forall k | k in ids[1..] && k in step.0.routes ensures step.0.routes[k].timeoutTime > now {
        assert k in ids && k != id;
      }
      SweepQuiet(step.0, ids[1..], now, delays[1..]);
    }
  }

  /**
   * One timer sweep at a single moment `now`, as written: each route whose
   * timeout has passed is expired, otherwise a route with a
   * garbage-collection deadline goes through garbage collection.
   */
  function DeletionProcess(t: Table, now: int, delays: seq<int>): (r: Outcome)
    requires Valid(t) && |delays| == |t.keys| && DelaysValid(delays)
    ensures Valid(r.0)
    ensures forall k :: k in t.routes ==> SweptAsWritten(t.routes[k], k, r.0, now, t.gcDelta)
    ensures forall k :: k in r.0.routes ==> k in t.routes
    ensures forall i :: 0 <= i < |r.1| ==> r.1[i] == BroadcastRequested
    ensures (forall k :: k in t.routes ==> t.routes[k].timeoutTime > now) ==> r.1 == []
    ensures r.0.routerId == t.routerId && r.0.gcDelta == t.gcDelta && r.0.config == t.config
  {
    SweepTreats(t, t.keys, now, delays);
    if forall k :: k in t.routes ==> t.routes[k].timeoutTime > now then
      SweepQuiet(t, t.keys, now, delays);
      Sweep(t, t.keys, now, delays)
    else
      Sweep(t, t.keys, now, delays)
  }

  /** What the corrected sweep does to a route it visits. */
  predicate SweptCorrected(before: RouteEntry, k: int, r: Table, now: int, gcDelta: int) {
    if before.gcTime.Some? then
      if before.gcTime.value <= now then k !in r.routes
      else k in r.routes && r.routes[k] == before
    else if before.timeoutTime <= now then
      k in r.routes && r.routes[k] == before.(metric := Infinity, flag := true, gcTime := Some(now + gcDelta))
    else
      k in r.routes && r.routes[k] == before
  }

  /** A route the corrected sweep leaves alone at `now`. */
  predicate Settled(e: RouteEntry, now: int) {
    if e.gcTime.Some? then e.gcTime.value > now else e.timeoutTime > now
  }

  /** The corrected sweep's treatment of one route. */
  function SweepStepCorrected(t: Table, id: int, now: int, delay: int): (r: Outcome)
    requires Valid(t) && TriggeredDelay(delay)
    ensures Valid(r.0)
    ensures r.0 == t.(keys := r.0.keys, routes := r.0.routes, triggeredUpdateTime := r.0.triggeredUpdateTime)
    ensures forall k :: k != id ==> (k in r.0.routes <==> k in t.routes)
    ensures forall k :: k != id && k in t.routes ==> r.0.routes[k] == t.routes[k]
    ensures id !in t.routes ==> r == (t, [])
    ensures id in t.routes ==> SweptCorrected(t.routes[id], id, r.0, now, t.gcDelta)
    ensures forall i :: 0 <= i < |r.1| ==> r.1[i] == BroadcastRequested
    ensures id in t.routes && Settled(t.routes[id], now) ==> r == (t, [])
  {
    if id !in t.routes then (t, [])
    else
      var entry := t.routes[id];
      if entry.gcTime.Some? then (GcProcessingCorrected(t, id, entry, now), [])
      else if entry.timeoutTime <= now then TimeoutProcessing(t, id, now, delay)
      else (t, [])
  }

  /** A visited route's outcome survives later steps that leave it alone. */
  lemma {:induction false} SweptCorrectedKept(before: RouteEntry, k: int, r1: Table, r2: Table, now: int, gcDelta: int)
    requires SweptCorrected(before, k, r1, now, gcDelta)
    requires k in r1.routes <==> k in r2.routes
    requires k in r1.routes ==> r1.routes[k] == r2.routes[k]
    ensures SweptCorrected(before, k, r2, now, gcDelta)
  {
  }

  /**
   * The sweep as intended: a route whose garbage-collection deadline has been
   * reached is removed; a live route whose timeout has passed is expired.
   */
  function SweepCorrected(t: Table, ids: seq<int>, now: int, delays: seq<int>): (r: Outcome)
    requires Valid(t) && Distinct(ids) && |delays| == |ids| && DelaysValid(delays)
    decreases |ids|
    ensures Valid(r.0)
    ensures r.0 == t.(keys := r.0.keys, routes := r.0.routes, triggeredUpdateTime := r.0.triggeredUpdateTime)
    ensures forall i :: 0 <= i < |r.1| ==> r.1[i] == BroadcastRequested
  {
    if |ids| == 0 then (t, [])
    else
      var step := SweepStepCorrected(t, ids[0], now, delays[0]);
      DistinctSuffix(ids, 1);
      var rest := SweepCorrected(step.0, ids[1..], now, delays[1..]);
      (rest.0, step.1 + rest.1)
  }

  /**
   * Each visited route is treated as the corrected step says, routes outside
   * `ids` are untouched, and an id with no route gains none.
   */
  lemma {:induction false} SweepCorrectedTreats(t: Table, ids: seq<int>, now: int, delays: seq<int>)
    requires Valid(t) && Distinct(ids) && |delays| == |ids| && DelaysValid(delays)
    decreases |ids|
    ensures var r := SweepCorrected(t, ids, now, delays).0;
            && (forall k :: k !in ids ==> (k in r.routes <==> k in t.routes))
            && (forall k :: k !in ids && k in t.routes ==> r.routes[k] == t.routes[k])
            && (forall k :: k in ids && k !in t.routes ==> k !in r.routes)
            && (forall k :: k in ids && k in t.routes ==> SweptCorrected(t.routes[k], k, r, now, t.gcDelta))
  {
    if |ids| > 0 {
      var id := ids[0];
      var step := SweepStepCorrected(t, id, now, delays[0]);
      DistinctSuffix(ids, 1);
      assert id !in ids[1..];
      SweepCorrectedTreats(step.0, ids[1..], now, delays[1..]);
      var rest := SweepCorrected(step.0, ids[1..], now, delays[1..]);
      assert SweepCorrected(t, ids, now, delays).0 == rest.0;
      assert forall k :: k in ids && k != id ==> k in ids[1..];
      if id in t.routes {
        SweptCorrectedKept(t.routes[id], id, step.0, rest.0, now, t.gcDelta);
      }
    }
  }

  /** A corrected sweep over settled routes changes nothing and asks for nothing. */
  lemma {:induction false} SweepCorrectedSettled(t: Table, ids: seq<int>, now: int, delays: seq<int>)
    requires Valid(t) && Distinct(ids) && |delays| == |ids| && DelaysValid(delays)
    requires forall k :: k in ids && k in t.routes ==> Settled(t.routes[k], now)
    decreases |ids|
    ensures SweepCorrected(t, ids, now, delays) == (t, [])
  {
    if |ids| > 0 {
      var id := ids[0];
      var step := SweepStepCorrected(t, id, now, delays[0]);
      DistinctSuffix(ids, 1);
      assert id in ids;
      assert step == (t, []);
      forall k | k in ids[1..] && k in t.routes ensures Settled(t.routes[k], now) {
        assert k in ids;
      }
      SweepCorrectedSettled(t, ids[1..], now, delays[1..]);
      assert step.1 + [] == [];
    }
  }

  /** One timer sweep at a single moment `now`, as intended. */
  function DeletionProcessCorrected(t: Table, now: int, delays: seq<int>): (r: Outcome)
    requires Valid(t) && |delays| == |t.keys| && DelaysValid(delays)
    ensures Valid(r.0)
    ensures forall k :: k in t.routes ==> SweptCorrected(t.routes[k], k, r.0, now, t.gcDelta)
    ensures forall k :: k in r.0.routes ==> k in t.routes
    ensures forall i :: 0 <= i < |r.1| ==> r.1[i] == BroadcastRequested
    ensures (forall k :: k in t.routes ==> Settled(t.routes[k], now)) ==> r == (t, [])
    ensures r.0.routerId == t.routerId && r.0.gcDelta == t.gcDelta && r.0.config == t.config
  {
    SweepCorrectedTreats(t, t.keys, now, delays);
    if forall k :: k in t.routes ==> Settled(t.routes[k], now) then
      SweepCorrectedSettled(t, t.keys, now, delays);
      SweepCorrected(t, t.keys, now, delays)
    else
      SweepCorrected(t, t.keys, now, delays)
  }

  /**
   * Each id paired with what `f` builds for it, in order; nothing when `f`
   * builds nothing for some id.
   */
  function CollectAll<K, V>(ids: seq<K>, f: K -> Option<V>): (r: Option<seq<(K, V)>>)
    ensures r.Some? <==> forall i :: 0 <= i < |ids| ==> f(ids[i]).Some?
    ensures r.Some? ==> |r.value| == |ids|
    ensures r.Some? ==> forall i :: 0 <= i < |ids| ==> r.value[i] == (ids[i], f(ids[i]).value)
  {
    if |ids| == 0 then Some([])
    else
      var first := f(ids[0]);
      var rest := CollectAll(ids[1..], f);
      assert forall i :: 0 < i < |ids| ==> ids[i] == ids[1..][i - 1];
      if first.None? || rest.None? then None
      else
        var r := [(ids[0], first.value)] + rest.value;
        assert forall i :: 0 < i < |ids| ==> r[i] == rest.value[i - 1];
        Some(r)
  }

  /**
   * The packets for every destination in the table, in table order; nothing
   * when some packet cannot be encoded.
   */
  function SendResponses(t: Table): (r: Option<seq<(int, seq<seq<byte>>)>>)
    requires Valid(t)
    ensures r.Some? <==> forall i :: 0 <= i < |t.keys| ==> ConstructPackets(t, t.keys[i]).Some?
    ensures r.Some? ==> |r.value| == |t.keys|
    ensures r.Some? ==> forall i :: 0 <= i < |t.keys| ==>
              r.value[i].0 == t.keys[i] && r.value[i].1 == ConstructPackets(t, t.keys[i]).value
  {
    var packetsFor := (id: int) => if Valid(t) then ConstructPackets(t, id) else None;
    CollectAll(t.keys, packetsFor)
  }

  /* ---------------------------------------------------------------------- */
  /* Properties                                                             */
  /* ---------------------------------------------------------------------- */

  /** As written, garbage collection removes a route whose deadline lies in the future. */
  lemma {:induction false} GcProcessingRemovesBeforeDeadline(t: Table, id: int, now: int)
    requires Valid(t) && id in t.routes && t.gcDelta > 0
    requires t.routes[id].gcTime == Some(now + t.gcDelta)
    ensures id !in GcProcessing(t, id, t.routes[id], now).routes
    ensures id in GcProcessingCorrected(t, id, t.routes[id], now).routes
  {
  }

  /**
   * A route expiring well before the next periodic update: the intended
   * processing asks for one triggered broadcast, the code as written for none.
   */
  lemma {:induction false} TriggeredUpdateLost(t: Table, id: int, now: int, delay: int)
    requires Valid(t) && id in t.routes && TriggeredDelay(delay) && now + 5 < t.schedUpdateTime
    ensures TimeoutProcessing(t, id, now, delay).1 == [BroadcastRequested]
    ensures TimeoutProcessingAsWritten(t, id, now, delay).1 == []
  {
  }

  /**
   * As written, a route whose timeout has passed is expired again by every
   * later sweep, which pushes its garbage-collection deadline forward each
   * time: it is never removed, however long after the deadline the sweep runs.
   */
  lemma {:induction false} ExpiredRouteNeverCollected(t: Table, k: int, now1: int, d1: seq<int>, now2: int, d2: seq<int>)
    requires Valid(t) && |d1| == |t.keys| && DelaysValid(d1)
    requires k in t.routes && t.routes[k].timeoutTime <= now1 <= now2
    requires |d2| == |DeletionProcess(t, now1, d1).0.keys| && DelaysValid(d2)
    ensures var t1 := DeletionProcess(t, now1, d1).0;
            var t2 := DeletionProcess(t1, now2, d2).0;
            && k in t1.routes && t1.routes[k].gcTime == Some(now1 + t.gcDelta)
            && k in t2.routes && t2.routes[k].gcTime == Some(now2 + t.gcDelta)
  {
    var t1 := DeletionProcess(t, now1, d1).0;
    assert SweptAsWritten(t.routes[k], k, t1, now1, t.gcDelta);
    assert t1.routes[k].timeoutTime == t.routes[k].timeoutTime;
    assert SweptAsWritten(t1.routes[k], k, DeletionProcess(t1, now2, d2).0, now2, t1.gcDelta);
  }

  /** After a corrected sweep every remaining route is settled for that moment. */
  lemma {:induction false} DeletionProcessCorrectedSettles(t: Table, now: int, delays: seq<int>)
    requires Valid(t) && t.gcDelta > 0 && |delays| == |t.keys| && DelaysValid(delays)
    ensures var t1 := DeletionProcessCorrected(t, now, delays).0;
            forall k :: k in t1.routes ==> Settled(t1.routes[k], now)
  {
    var t1 := DeletionProcessCorrected(t, now, delays).0;
    forall k | k in t1.routes ensures Settled(t1.routes[k], now) {
      assert SweptCorrected(t.routes[k], k, t1, now, t.gcDelta);
    }
  }

  /**
   * A second corrected sweep at the same moment changes nothing and asks for
   * nothing.
   */
  lemma {:induction false} DeletionProcessCorrectedIdempotent(t: Table, now: int, d1: seq<int>, d2: seq<int>)
    requires Valid(t) && t.gcDelta > 0 && |d1| == |t.keys| && DelaysValid(d1)
    requires |d2| == |DeletionProcessCorrected(t, now, d1).0.keys| && DelaysValid(d2)
    ensures var t1 := DeletionProcessCorrected(t, now, d1).0;
            DeletionProcessCorrected(t1, now, d2) == (t1, [])
  {
    DeletionProcessCorrectedSettles(t, now, d1);
  }

  /**
   * With the corrected sweep, a route expired at `now1` is removed by the
   * first sweep at or after its garbage-collection deadline.
   */
  lemma {:induction false} ExpiredRouteCollected(t: Table, k: int, now1: int, d1: seq<int>, now2: int, d2: seq<int>)
    requires Valid(t) && |d1| == |t.keys| && DelaysValid(d1)
    requires k in t.routes && t.routes[k].gcTime.None? && t.routes[k].timeoutTime <= now1
    requires now1 + t.gcDelta <= now2
    requires |d2| == |DeletionProcessCorrected(t, now1, d1).0.keys| && DelaysValid(d2)
    ensures var t1 := DeletionProcessCorrected(t, now1, d1).0;
            && k in t1.routes && t1.routes[k].metric == Infinity
            && k !in DeletionProcessCorrected(t1, now2, d2).0.routes
  {
    var t1 := DeletionProcessCorrected(t, now1, d1).0;
    assert SweptCorrected(t.routes[k], k, t1, now1, t.gcDelta);
    assert SweptCorrected(t1.routes[k], k, DeletionProcessCorrected(t1, now2, d2).0, now2, t1.gcDelta);
  }

  lemma {:induction false} InFlatten<T>(ss: seq<seq<T>>, j: nat, x: T)
    requires j < |ss| && x in ss[j]
    ensures x in Flatten(ss)
    decreases j
  {
    if j > 0 {
      InFlatten(ss[1..], j - 1, x);
    }
  }

  /** A row placed in any packet group for `dest` is a known route not learned from `dest`. */
  lemma {:induction false} GroupRowAdvertised(t: Table, dest: int, j: nat, m: nat)
    requires Valid(t)
    requires j < |Chunks(Select(t, dest))| && m < |Chunks(Select(t, dest))[j]|
    ensures var row := Chunks(Select(t, dest))[j][m];
            row.0 in t.routes && t.routes[row.0].learnedFrom != dest
  {
    var sel := Select(t, dest);
    var groups := Chunks(sel);
    var row := groups[j][m];
    InFlatten(groups, j, row);
    assert row in sel;
    var n :| 0 <= n < |sel| && sel[n] == row;
    assert KeysOf(sel)[n] == row.0;
  }

  /** Each packet built for `dest` reads back with this sender and only advertisable routes. */
  lemma {:induction false} PacketSplitHorizon(t: Table, dest: int, j: nat)
    requires Valid(t) && ConstructPackets(t, dest).Some? && j < |ConstructPackets(t, dest).value|
    ensures var p := ReadPacket(ConstructPackets(t, dest).value[j]);
            && p.Some? && p.value.senderRouterId == t.routerId
            && forall e :: e in p.value.entries ==>
                 e.targetRouterId in t.routes && t.routes[e.targetRouterId].learnedFrom != dest
  {
    var groups := Chunks(Select(t, dest));
    PacketRoundTrip(t.routerId, groups[j]);
    var es := Responses(groups[j]);
    forall e | e in es
      ensures e.targetRouterId in t.routes && t.routes[e.targetRouterId].learnedFrom != dest
    {
      var m :| 0 <= m < |es| && es[m] == e;
      GroupRowAdvertised(t, dest, j, m);
    }
  }

  /**
   * Split horizon in the responses: every packet built for a destination
   * reads back with this router as sender, and advertises only known routes
   * that were not learned from that destination.
   */
  lemma {:induction false} SendResponsesSplitHorizon(t: Table, i: nat)
    requires Valid(t) && SendResponses(t).Some? && i < |t.keys|
    ensures var dest := t.keys[i];
            var ps := SendResponses(t).value[i].1;
            forall j :: 0 <= j < |ps| ==>
              && ReadPacket(ps[j]).Some?
              && ReadPacket(ps[j]).value.senderRouterId == t.routerId
              && forall e :: e in ReadPacket(ps[j]).value.entries ==>
                   e.targetRouterId in t.routes && t.routes[e.targetRouterId].learnedFrom != t.keys[i]
  {
    var dest := t.keys[i];
    var ps := SendResponses(t).value[i].1;
    assert ps == ConstructPackets(t, dest).value;
    forall j | 0 <= j < |ps|
      ensures ReadPacket(ps[j]).Some? && ReadPacket(ps[j]).value.senderRouterId == t.routerId
      ensures forall e :: e in ReadPacket(ps[j]).value.entries ==>
                e.targetRouterId in t.routes && t.routes[e.targetRouterId].learnedFrom != dest
    {
      PacketSplitHorizon(t, dest, j);
    }
  }
}
