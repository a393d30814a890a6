/**
 * The routing table: the routes of one router keyed by destination router id,
 * kept in insertion order (the order in which packets list them), together
 * with the neighbour configuration, the three configured intervals and the
 * periodic and triggered update deadlines.
 */
module RoutingTables {
  import opened Common
  import opened RouteEntries

  /** What the configuration says about a directly connected neighbour. */
  datatype NeighbourConfig = NeighbourConfig(port: int, cost: int)

  datatype Table = Table(
    routerId: int,
    keys: seq<int>,
    routes: map<int, RouteEntry>,
    config: map<int, NeighbourConfig>,
    updateDelta: int,
    timeoutDelta: int,
    gcDelta: int,
    schedUpdateTime: int,
    triggeredUpdateTime: Option<int>)

  /** A table together with the work an operation hands to the thread pool, in request order. */
  type Outcome = (Table, seq<Event>)

  /** The key sequence lists every key of the map exactly once. */
  predicate Valid(t: Table) {
    && Distinct(t.keys)
    && (forall k :: k in t.keys ==> k in t.routes)
    && (forall k :: k in t.routes ==> k in t.keys)
  }

  /** The jitter added to the periodic update interval is drawn from [-5, 5]. */
  predicate SchedJitter(j: int) { -5 <= j <= 5 }

  /** The delay before a triggered update is drawn from [1, 5]. */
  predicate TriggeredDelay(d: int) { 1 <= d <= 5 }

  /** A fresh table: no routes, a periodic update scheduled, no triggered update pending. */
  function NewTable(routerId: int, updateDelta: int, timeoutDelta: int, gcDelta: int,
                    config: map<int, NeighbourConfig>, now: int, jitter: int): (t: Table)
    requires SchedJitter(jitter)
    ensures Valid(t) && |t.keys| == 0 && t.routes == map[]
    ensures t.routerId == routerId && t.config == config
    ensures t.updateDelta == updateDelta && t.timeoutDelta == timeoutDelta && t.gcDelta == gcDelta
    ensures now + updateDelta - 5 <= t.schedUpdateTime <= now + updateDelta + 5
    ensures t.triggeredUpdateTime.None?
  {
    var empty := Table(routerId, [], map[], config, updateDelta, timeoutDelta, gcDelta, now, None);
    UpdateSchedUpdateTime(empty, now, jitter).0
  }

  /** Membership as the table's own `in` answers it. */
  function Contains(t: Table, id: int): (b: bool)
    requires Valid(t)
    ensures b <==> id in t.keys
  {
    id in t.routes
  }

  /** The route stored for a present key. */
  function Get(t: Table, id: int): (e: RouteEntry)
    requires Valid(t) && id in t.keys
    ensures id in t.routes && e == t.routes[id]
  {
    t.routes[id]
  }

  /** The number of routes. */
  function Len(t: Table): (n: nat)
    requires Valid(t)
    ensures n == |t.routes.Keys|
  {
    KeySetIsMapDomain(t);
    DistinctCardinality(t.keys);
    |t.keys|
  }

  lemma {:induction false} KeySetIsMapDomain(t: Table)
    requires Valid(t)
    ensures (set k | k in t.keys) == t.routes.Keys
  {
    assert forall k :: k in (set k | k in t.keys) <==> k in t.routes.Keys;
  }

  /** The keys in iteration (insertion) order. */
  function Ids(t: Table): (ids: seq<int>)
    requires Valid(t)
    ensures Distinct(ids)
    ensures forall k :: k in ids <==> k in t.routes
  {
    t.keys
  }

  /** The destinations of the table, as iterated when sending to every router. */
  function Neighbours(t: Table): (ids: seq<int>)
    requires Valid(t)
    ensures Distinct(ids)
    ensures forall k :: k in ids <==> k in t.routes
  {
    Ids(t)
  }

  /**
   * Stores `e` under `id`. A new key goes to the end of the iteration order;
   * an existing key keeps its position.
   */
  function AddRoute(t: Table, id: int, e: RouteEntry): (r: Table)
    requires Valid(t)
    ensures Valid(r)
    ensures id in r.routes && r.routes[id] == e
    ensures forall k :: k != id ==> (k in r.routes <==> k in t.routes)
    ensures forall k :: k != id && k in t.routes ==> r.routes[k] == t.routes[k]
    ensures id in t.routes ==> r.keys == t.keys
    ensures id !in t.routes ==> r.keys == t.keys + [id]
    ensures r == t.(keys := r.keys, routes := r.routes)
  {
    var keys := if id in t.routes then t.keys else t.keys + [id];
    t.(keys := keys, routes := t.routes[id := e])
  }

  /** The key sequence with one occurrence of `x` taken out. */
  function RemoveKey(s: seq<int>, x: int): seq<int>
    requires x in s
  {
    var i := IndexOf(s, x);
    s[..i] + s[i + 1..]
  }

  /**
   * Removing a key from a list of distinct keys drops exactly that key and
   * keeps the others, still distinct, in their order.
   */
  lemma {:induction false} RemoveKeyProperties(s: seq<int>, x: int)
    requires Distinct(s) && x in s
    ensures |RemoveKey(s, x)| == |s| - 1
    ensures forall j :: 0 <= j < |RemoveKey(s, x)| ==>
              RemoveKey(s, x)[j] == if j < IndexOf(s, x) then s[j] else s[j + 1]
    ensures forall k :: k in RemoveKey(s, x) <==> k in s && k != x
    ensures Distinct(RemoveKey(s, x))
  {
    var i := IndexOf(s, x);
    var r := RemoveKey(s, x);
    assert forall j :: 0 <= j < |r| ==> r[j] == (if j < i then s[j] else s[j + 1]);
    forall k | k in s && k != x ensures k in r {
      var j := IndexOf(s, k);
      if j < i { assert r[j] == k; } else { assert r[j - 1] == k; }
    }
  }

  /** Deletes a present key; the other keys keep their routes and their order. */
  function RemoveRoute(t: Table, id: int): (r: Table)
    requires Valid(t) && id in t.routes
    ensures Valid(r)
    ensures id !in r.routes
    ensures forall k :: k != id ==> (k in r.routes <==> k in t.routes)
    ensures forall k :: k in r.routes ==> r.routes[k] == t.routes[k]
    ensures |r.keys| == |t.keys| - 1
    ensures r == t.(keys := r.keys, routes := r.routes)
  {
    RemoveKeyProperties(t.keys, id);
    t.(keys := RemoveKey(t.keys, id), routes := t.routes - {id})
  }

  /**
   * Reading after adding: the added id answers with the new route, and every
   * other id answers as before.
   */
  lemma {:induction false} GetAfterAddRoute(t: Table, id: int, e: RouteEntry, k: int)
    requires Valid(t)
    ensures Contains(AddRoute(t, id, e), id) && Get(AddRoute(t, id, e), id) == e
    ensures k != id ==> (Contains(AddRoute(t, id, e), k) <==> Contains(t, k))
    ensures k != id && Contains(t, k) ==> Get(AddRoute(t, id, e), k) == Get(t, k)
  {
  }

  /**
   * Reading after removing: the removed id is gone, and every other id
   * answers as before.
   */
  lemma {:induction false} GetAfterRemoveRoute(t: Table, id: int, k: int)
    requires Valid(t) && Contains(t, id)
    ensures !Contains(RemoveRoute(t, id), id)
    ensures k != id ==> (Contains(RemoveRoute(t, id), k) <==> Contains(t, k))
    ensures k != id && Contains(t, k) ==> Get(RemoveRoute(t, id), k) == Get(t, k)
  {
  }

  /**
   * Schedules the next periodic update `updateDelta + jitter` seconds after
   * `initial`. Returns the table and `initial`.
   */
  function UpdateSchedUpdateTime(t: Table, initial: int, jitter: int): (r: (Table, int))
    requires SchedJitter(jitter)
    ensures r.1 == initial
    ensures initial + t.updateDelta - 5 <= r.0.schedUpdateTime <= initial + t.updateDelta + 5
    ensures r.0.schedUpdateTime - initial - t.updateDelta == jitter
    ensures r.0 == t.(schedUpdateTime := r.0.schedUpdateTime)
  {
    (t.(schedUpdateTime := initial + t.updateDelta + jitter), initial)
  }

  /**
   * Records a triggered update `delay` seconds after `initial`. The answer is
   * false when that moment is not before the next periodic update, which will
   * carry the change instead; otherwise the triggered update goes ahead.
   */
  function SetTriggeredUpdateTime(t: Table, initial: int, delay: int): (r: (Table, bool))
    requires TriggeredDelay(delay)
    ensures r.0 == t.(triggeredUpdateTime := r.0.triggeredUpdateTime)
    ensures r.0.triggeredUpdateTime.Some?
    ensures initial + 1 <= r.0.triggeredUpdateTime.value <= initial + 5
    ensures r.1 <==> r.0.triggeredUpdateTime.value < t.schedUpdateTime
    ensures initial + 5 < t.schedUpdateTime ==> r.1
    ensures t.schedUpdateTime <= initial + 1 ==> !r.1
  {
    var triggered := initial + delay;
    var t' := t.(triggeredUpdateTime := Some(triggered));
    if triggered >= t.schedUpdateTime then (t', false)
    else (t', true)
  }

  /**
   * Records a triggered update as written: when the triggered moment is
   * before the periodic update, the final answer adds a bare number of
   * seconds to a time, which the time type refuses, so no answer is returned
   * (None) although the new triggered time is kept. The answer is therefore
   * never true.
   */
  function SetTriggeredUpdateTimeAsWritten(t: Table, initial: int, delay: int): (r: (Table, Option<bool>))
    requires TriggeredDelay(delay)
    ensures r.0 == SetTriggeredUpdateTime(t, initial, delay).0
    ensures r.1.None? <==> SetTriggeredUpdateTime(t, initial, delay).1
    ensures r.1 != Some(true)
  {
    var triggered := initial + delay;
    var t' := t.(triggeredUpdateTime := Some(triggered));
    if triggered >= t.schedUpdateTime then (t', Some(false))
    else (t', None)
  }
}
