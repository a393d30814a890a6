/**
 * The start-up check of the router's configuration: router ids, input
 * ports, output ports, link costs and the ratios between the three timers,
 * checked in that order; the first failing category is reported.
 */
module ValidateData {
  import opened Common

  const MinPort: int := 1024
  const MaxPort: int := 64000

  /** The timeout and garbage-collection intervals as multiples of the update interval. */
  const PeriodicDeadRatio: int := 6
  const PeriodicGarbageRatio: int := 4

  /** The output section: ports, link costs and neighbour ids, position by position. */
  datatype OutputConfig = OutputConfig(ports: seq<int>, costs: seq<int>, routerIds: seq<int>)

  datatype Timers = Timers(update: int, timeout: int, garbage: int)

  datatype ConfigError = RouterIdError | InputPortsError | OutputPortsError | CostError | TimersError

  /**
   * The outcome of the check. `ZeroUpdateInterval` stands for the division
   * by a zero update interval, which aborts the check.
   */
  datatype Verdict = Accepted | Rejected(error: ConfigError) | ZeroUpdateInterval

  predicate AllInRange(xs: seq<int>, lo: int, hi: int) {
    forall i :: 0 <= i < |xs| ==> lo <= xs[i] <= hi
  }

  /** Every value in range and none repeated. */
  predicate RangeAndDistinct(xs: seq<int>, lo: int, hi: int) {
    AllInRange(xs, lo, hi) && Distinct(xs)
  }

  /**
   * Walks the list, stopping at the first value out of range, collecting the
   * values seen in a set; the list is rejected if a value was out of range or
   * the set is smaller than the list. Also returns the set.
   */
  method CheckRangeAndDistinct(xs: seq<int>, lo: int, hi: int) returns (ok: bool, seen: set<int>)
    ensures ok <==> RangeAndDistinct(xs, lo, hi)
    ensures ok ==> seen == set x | x in xs
  {
    seen := {};
    var error := false;
    var i := 0;
    while i < |xs|
      invariant 0 <= i <= |xs|
      invariant seen == set x | x in xs[..i]
      invariant AllInRange(xs[..i], lo, hi)
    {
      if xs[i] < lo || xs[i] > hi {
        error := true;
        break;
      }
      seen := seen + {xs[i]};
      assert xs[..i + 1] == xs[..i] + [xs[i]];
      i := i + 1;
    }
    if !error {
      assert xs[..i] == xs;
      DistinctCardinality(xs);
    }
    if |seen| != |xs| {
      error := true;
    }
    ok := !error;
  }

  predicate IdsOk(routerIds: seq<int>) { RangeAndDistinct(routerIds, MinId, MaxId) }

  predicate InputsOk(inputPorts: seq<int>) { RangeAndDistinct(inputPorts, MinPort, MaxPort) }

  /** Output ports in range, none repeated, none also an input port. */
  predicate OutputsOk(inputPorts: seq<int>, out: OutputConfig) {
    && RangeAndDistinct(out.ports, MinPort, MaxPort)
    && forall i, j :: 0 <= i < |out.ports| && 0 <= j < |inputPorts| ==> out.ports[i] != inputPorts[j]
  }

  predicate CostsOk(out: OutputConfig) { RangeAndDistinct(out.costs, MinMetric, MaxMetric) }

  predicate RatiosOk(timers: Timers)
    requires timers.update != 0
  {
    timers.timeout == PeriodicDeadRatio * timers.update && timers.garbage == PeriodicGarbageRatio * timers.update
  }

  /**
   * Checks a configuration. Each category is checked only when all earlier
   * ones passed, so exactly the first failing category is reported; the ids
   * of the output section are not checked.
   */
  method Validate(routerIds: seq<int>, inputPorts: seq<int>, out: OutputConfig, timers: Timers) returns (v: Verdict)
    ensures v == Rejected(RouterIdError) <==> !IdsOk(routerIds)
    ensures v == Rejected(InputPortsError) <==> IdsOk(routerIds) && !InputsOk(inputPorts)
    ensures v == Rejected(OutputPortsError) <==>
              IdsOk(routerIds) && InputsOk(inputPorts) && !OutputsOk(inputPorts, out)
    ensures v == Rejected(CostError) <==>
              IdsOk(routerIds) && InputsOk(inputPorts) && OutputsOk(inputPorts, out) && !CostsOk(out)
    ensures v == ZeroUpdateInterval <==>
              IdsOk(routerIds) && InputsOk(inputPorts) && OutputsOk(inputPorts, out) && CostsOk(out)
              && timers.update == 0
    ensures v == Rejected(TimersError) <==>
              IdsOk(routerIds) && InputsOk(inputPorts) && OutputsOk(inputPorts, out) && CostsOk(out)
              && timers.update != 0 && !RatiosOk(timers)
    ensures v == Accepted <==>
              IdsOk(routerIds) && InputsOk(inputPorts) && OutputsOk(inputPorts, out) && CostsOk(out)
              && timers.update != 0 && RatiosOk(timers)
  {
    var idsOk, _ := CheckRangeAndDistinct(routerIds, MinId, MaxId);
    if !idsOk {
      return Rejected(RouterIdError);
    }
    var inputsOk, inputSet := CheckRangeAndDistinct(inputPorts, MinPort, MaxPort);
    if !inputsOk {
      return Rejected(InputPortsError);
    }
    var outputsOk, outputSet := CheckRangeAndDistinct(out.ports, MinPort, MaxPort);
    if outputsOk {
      if outputSet * inputSet != {} {
        outputsOk := false;
        ghost var p :| p in outputSet * inputSet;
        assert p in out.ports && p in inputPorts;
      } else {
        forall i, j | 0 <= i < |out.ports| && 0 <= j < |inputPorts|
          ensures out.ports[i] != inputPorts[j]
        {
          assert out.ports[i] in outputSet && inputPorts[j] in inputSet;
          assert out.ports[i] !in outputSet * inputSet;
        }
      }
    }
    if !outputsOk {
      return Rejected(OutputPortsError);
    }
    var costsOk, _ := CheckRangeAndDistinct(out.costs, MinMetric, MaxMetric);
    if !costsOk {
      return Rejected(CostError);
    }
    if timers.update == 0 {
      return ZeroUpdateInterval;
    }
    if timers.timeout != PeriodicDeadRatio * timers.update || timers.garbage != PeriodicGarbageRatio * timers.update {
      return Rejected(TimersError);
    }
    return Accepted;
  }
}
