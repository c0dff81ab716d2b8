/** metrics_calculator.py: the single-link cost (used hop by hop), the strict
    path evaluator that raises on a missing link or vertex, and their
    weighted sums, which first check that the weights add up to 1. */
module MetricsCalculator {
  import opened Common
  import opened Network

  /** `round(W_delay + W_reliability + W_resource, 5) == 1.0`. */
  predicate WeightsValid(w: Weights) {
    0.999995 < w.delay + w.reliability + w.resource < 1.000005
  }

  // ---------------------------------------------------------------- one link

  /** calculate_link_cost: the link's delay, reliability cost and resource cost
      plus the processing delay and reliability cost of its origin u. */
  function LinkCost(g: Graph, negLn: NegLog, u: int, v: int): (r: Result<Metrics>)
    ensures GetLinkInfo(g, u, v).None? ==> r == Err(MissingLink(u, v))
    ensures GetLinkInfo(g, u, v).Some? && u !in g.vertices ==> r == Err(MissingVertex(u))
    ensures r.Ok? ==> (GetLinkInfo(g, u, v).Some? && u in g.vertices &&
      var l, x := GetLinkInfo(g, u, v).value, g.vertices[u];
      r.value.delay == l.delay + x.processingDelay &&
      r.value.reliability == negLn(l.reliability) + negLn(x.reliability) &&
      r.value.resource * l.bandwidth == MaxBandwidth)
    ensures r.Err? && GetLinkInfo(g, u, v).Some? && u in g.vertices ==>
      r == Err(DivisionByZero) && GetLinkInfo(g, u, v).value.bandwidth == 0.0
  {
    var info := GetLinkInfo(g, u, v);
    if info.None? then Err(MissingLink(u, v))
    else if u !in g.vertices then Err(MissingVertex(u))
    else
      var l, x := info.value, g.vertices[u];
      if l.bandwidth == 0.0 then Err(DivisionByZero)
      else Ok(Metrics(l.delay + x.processingDelay, negLn(l.reliability) + negLn(x.reliability),
                      MaxBandwidth / l.bandwidth))
  }

  /** calculate_weighted_link_cost: rejects weights that do not add up to 1
      before looking at the link. */
  function WeightedLinkCost(g: Graph, negLn: NegLog, u: int, v: int, w: Weights): (r: Result<real>)
    ensures !WeightsValid(w) ==> r == Err(InvalidWeights)
    ensures WeightsValid(w) ==> (r.Ok? <==> LinkCost(g, negLn, u, v).Ok?)
    ensures r.Ok? ==> r.value == Combine(w, LinkCost(g, negLn, u, v).value)
    ensures WeightsValid(w) && r.Err? ==> r.fault == LinkCost(g, negLn, u, v).fault
  {
    if !WeightsValid(w) then Err(InvalidWeights)
    else match LinkCost(g, negLn, u, v)
      case Ok(m) => Ok(Combine(w, m))
      case Err(f) => Err(f)
  }

  // ---------------------------------------------------------------- a path

  /** Why hop i of calculate_path_metrics raises, in the order the loop body
      checks: the link, then (past the first hop) the origin vertex, then the
      division by the bandwidth. */
  function CalcHopFault(g: Graph, path: seq<int>, i: nat): Option<Fault>
    requires i + 1 < |path|
  {
    var l := GetLinkInfo(g, path[i], path[i + 1]);
    if l.None? then Some(MissingLink(path[i], path[i + 1]))
    else if i > 0 && path[i] !in g.vertices then Some(MissingVertex(path[i]))
    else if l.value.bandwidth == 0.0 then Some(DivisionByZero)
    else None
  }

  /** The first hop at or after i that raises, or |path| - 1. */
  function CalcFirstFault(g: Graph, path: seq<int>, i: nat): (k: nat)
    requires i < |path|
    ensures i <= k < |path|
    ensures forall j :: i <= j < k ==> CalcHopFault(g, path, j).None?
    ensures k < |path| - 1 ==> CalcHopFault(g, path, k).Some?
    decreases |path| - i
  {
    if i == |path| - 1 then i
    else if CalcHopFault(g, path, i).Some? then i
    else CalcFirstFault(g, path, i + 1)
  }

  lemma CalcFirstFaultIs(g: Graph, path: seq<int>, k: nat)
    requires k < |path|
    requires forall j :: 0 <= j < k ==> CalcHopFault(g, path, j).None?
    requires k < |path| - 1 ==> CalcHopFault(g, path, k).Some?
    ensures CalcFirstFault(g, path, 0) == k
  {
  }

  /** What hop i adds: the link's three costs, and past the first hop the
      origin's processing delay and reliability cost. */
  function CalcHop(g: Graph, negLn: NegLog, path: seq<int>, i: nat): Metrics
    requires i + 1 < |path| && CalcHopFault(g, path, i).None?
  {
    var l := GetLinkInfo(g, path[i], path[i + 1]).value;
    var linkPart := Metrics(l.delay, negLn(l.reliability), MaxBandwidth / l.bandwidth);
    if i > 0 then
      var x := g.vertices[path[i]];
      Plus(Metrics(x.processingDelay, negLn(x.reliability), 0.0), linkPart)
    else
      linkPart
  }

  function CalcSum(g: Graph, negLn: NegLog, path: seq<int>, n: nat): Metrics
    requires n < |path|
    requires forall i :: 0 <= i < n ==> CalcHopFault(g, path, i).None?
  {
    if n == 0 then NoCost else Plus(CalcSum(g, negLn, path, n - 1), CalcHop(g, negLn, path, n - 1))
  }

  /** calculate_path_metrics as a value: the first raising hop decides the
      error; then path[0] (IndexError on an empty path, KeyError when unknown)
      and path[-1] are looked up and their reliability costs are added. */
  function PathMetrics(g: Graph, negLn: NegLog, path: seq<int>): Result<Metrics> {
    if |path| == 0 then Err(EmptyPath)
    else
      var h := |path| - 1;
      var k := CalcFirstFault(g, path, 0);
      if k < h then Err(CalcHopFault(g, path, k).value)
      else if path[0] !in g.vertices then Err(MissingVertex(path[0]))
      else if path[h] !in g.vertices then Err(MissingVertex(path[h]))
      else
        var m := CalcSum(g, negLn, path, h);
        var ends := negLn(g.vertices[path[0]].reliability) + negLn(g.vertices[path[h]].reliability);
        Ok(Metrics(m.delay, m.reliability + ends, m.resource))
  }

  /** calculate_path_metrics: one pass over the hops, then the two end nodes. */
  method CalculatePathMetrics(g: Graph, negLn: NegLog, path: seq<int>) returns (r: Result<Metrics>)
    ensures r == PathMetrics(g, negLn, path)
  {
    if |path| == 0 {
      // the loop over no hops changes nothing; path[0] then raises IndexError
      return Err(EmptyPath);
    }
    var totalDelay, reliabilityCost, resourceCost := 0.0, 0.0, 0.0;
    for i := 0 to |path| - 1
      invariant forall j :: 0 <= j < i ==> CalcHopFault(g, path, j).None?
      invariant Metrics(totalDelay, reliabilityCost, resourceCost) == CalcSum(g, negLn, path, i)
    {
      var u, v := path[i], path[i + 1];
      var info := GetLinkInfo(g, u, v);
      if info.None? {
        CalcFirstFaultIs(g, path, i);
        return Err(MissingLink(u, v));
      }
      var link := info.value;
      if i > 0 {
        if u !in g.vertices {
          CalcFirstFaultIs(g, path, i);
          return Err(MissingVertex(u));
        }
        var current := g.vertices[u];
        totalDelay := totalDelay + current.processingDelay;
        reliabilityCost := reliabilityCost + negLn(current.reliability);
      }
      totalDelay := totalDelay + link.delay;
      reliabilityCost := reliabilityCost + negLn(link.reliability);
      if link.bandwidth == 0.0 {
        CalcFirstFaultIs(g, path, i);
        return Err(DivisionByZero);
      }
      resourceCost := resourceCost + MaxBandwidth / link.bandwidth;
      assert CalcHopFault(g, path, i).None?;
      assert CalcSum(g, negLn, path, i + 1) == Plus(CalcSum(g, negLn, path, i), CalcHop(g, negLn, path, i));
    }
    CalcFirstFaultIs(g, path, |path| - 1);
    if path[0] !in g.vertices {
      return Err(MissingVertex(path[0]));
    }
    var nodeS := g.vertices[path[0]];
    reliabilityCost := reliabilityCost + negLn(nodeS.reliability);
    if path[|path| - 1] !in g.vertices {
      return Err(MissingVertex(path[|path| - 1]));
    }
    var nodeD := g.vertices[path[|path| - 1]];
    reliabilityCost := reliabilityCost + negLn(nodeD.reliability);
    return Ok(Metrics(totalDelay, reliabilityCost, resourceCost));
  }

  /** calculate_weighted_path_cost: the weight check comes before the path is
      evaluated; an error of the evaluator propagates. */
  function WeightedPathCost(g: Graph, negLn: NegLog, path: seq<int>, w: Weights): (r: Result<real>)
    ensures !WeightsValid(w) ==> r == Err(InvalidWeights)
    ensures WeightsValid(w) ==> (r.Ok? <==> PathMetrics(g, negLn, path).Ok?)
    ensures WeightsValid(w) && r.Err? ==> r.fault == PathMetrics(g, negLn, path).fault
    ensures r.Ok? ==> r.value == Combine(w, PathMetrics(g, negLn, path).value)
  {
    if !WeightsValid(w) then Err(InvalidWeights)
    else match PathMetrics(g, negLn, path)
      case Ok(m) => Ok(Combine(w, m))
      case Err(f) => Err(f)
  }

  // ---------------------------------------------------------------- properties

  /** Past the first hop, each hop of the path evaluator is calculate_link_cost
      of that hop: the same costs, and the same exception. */
  lemma InteriorHopIsLinkCost(g: Graph, negLn: NegLog, path: seq<int>, i: nat)
    requires 0 < i && i + 1 < |path|
    ensures CalcHopFault(g, path, i).None? ==>
      LinkCost(g, negLn, path[i], path[i + 1]) == Ok(CalcHop(g, negLn, path, i))
    ensures CalcHopFault(g, path, i).Some? ==>
      LinkCost(g, negLn, path[i], path[i + 1]) == Err(CalcHopFault(g, path, i).value)
  {
  }

  /** Σ over hops [0, n) of the links' delays, reliability costs and resource costs. */
  function LinkSum(g: Graph, negLn: NegLog, path: seq<int>, n: nat): Metrics
    requires n < |path|
    requires forall i :: 0 <= i < n ==> CalcHopFault(g, path, i).None?
  {
    if n == 0 then NoCost
    else
      assert CalcHopFault(g, path, n - 1).None?;
      var l := GetLinkInfo(g, path[n - 1], path[n]).value;
      Plus(LinkSum(g, negLn, path, n - 1), Metrics(l.delay, negLn(l.reliability), MaxBandwidth / l.bandwidth))
  }

  /** Σ over nodes path[lo..hi) of their processing delays and reliability costs. */
  function NodeSum(g: Graph, negLn: NegLog, path: seq<int>, lo: nat, hi: nat): (r: Metrics)
    requires lo <= hi <= |path|
    requires forall j :: lo <= j < hi ==> path[j] in g.vertices
    ensures r.resource == 0.0
    decreases hi - lo
  {
    if lo == hi then NoCost
    else
      var x := g.vertices[path[hi - 1]];
      Plus(NodeSum(g, negLn, path, lo, hi - 1), Metrics(x.processingDelay, negLn(x.reliability), 0.0))
  }

  lemma {:induction false} CalcSumSplits(g: Graph, negLn: NegLog, path: seq<int>, n: nat)
    requires 0 < n < |path|
    requires forall i :: 0 <= i < n ==> CalcHopFault(g, path, i).None?
    ensures forall j :: 1 <= j < n ==> path[j] in g.vertices
    ensures CalcSum(g, negLn, path, n) == Plus(LinkSum(g, negLn, path, n), NodeSum(g, negLn, path, 1, n))
  {
    forall j | 1 <= j < n ensures path[j] in g.vertices {
      assert CalcHopFault(g, path, j).None?;
    }
    if n > 1 {
      CalcSumSplits(g, negLn, path, n - 1);
      assert CalcSum(g, negLn, path, n) == Plus(CalcSum(g, negLn, path, n - 1), CalcHop(g, negLn, path, n - 1));
    }
  }

  /** What an evaluated path tells: no hop raised, both ends are known, and
      the result is the hop totals plus the end nodes' reliability costs. */
  lemma PathMetricsOk(g: Graph, negLn: NegLog, path: seq<int>)
    requires PathMetrics(g, negLn, path).Ok?
    ensures |path| >= 1
    ensures forall i :: 0 <= i < |path| - 1 ==> CalcHopFault(g, path, i).None?
    ensures path[0] in g.vertices && path[|path| - 1] in g.vertices
    ensures var m, h := CalcSum(g, negLn, path, |path| - 1), |path| - 1;
      PathMetrics(g, negLn, path).value ==
        Metrics(m.delay, m.reliability + negLn(g.vertices[path[0]].reliability) +
                         negLn(g.vertices[path[h]].reliability), m.resource)
  {
  }

  /** For a path of two or more nodes the evaluator charges every link once,
      the processing delay of the interior nodes only, and the reliability
      cost of every node exactly once (the source at the first hop is added
      after the loop, together with the destination). */
  lemma PathMetricsChargesEachNodeOnce(g: Graph, negLn: NegLog, path: seq<int>)
    requires |path| >= 2 && PathMetrics(g, negLn, path).Ok?
    ensures forall j :: 0 <= j < |path| ==> path[j] in g.vertices
    ensures var h, m := |path| - 1, PathMetrics(g, negLn, path).value;
      m.delay == LinkSum(g, negLn, path, h).delay + NodeSum(g, negLn, path, 1, h).delay &&
      m.reliability == LinkSum(g, negLn, path, h).reliability + NodeSum(g, negLn, path, 0, |path|).reliability &&
      m.resource == LinkSum(g, negLn, path, h).resource
  {
    var h := |path| - 1;
    PathMetricsOk(g, negLn, path);
    CalcSumSplits(g, negLn, path, h);
    EndsAndInteriorKnown(g, path);
    var m, s, d := CalcSum(g, negLn, path, h), g.vertices[path[0]], g.vertices[path[h]];
    var links, interior := LinkSum(g, negLn, path, h), NodeSum(g, negLn, path, 1, h);
    var prefix, all := NodeSum(g, negLn, path, 0, h), NodeSum(g, negLn, path, 0, |path|);
    assert all.reliability == prefix.reliability + negLn(d.reliability);
    NodeSumFront(g, negLn, path, h);
  }

  /** Known end nodes and known interior nodes make every node known. */
  lemma EndsAndInteriorKnown(g: Graph, path: seq<int>)
    requires |path| >= 2 && path[0] in g.vertices && path[|path| - 1] in g.vertices
    requires forall j :: 1 <= j < |path| - 1 ==> path[j] in g.vertices
    ensures forall j :: 0 <= j < |path| ==> path[j] in g.vertices
  {
    forall j | 0 <= j < |path| ensures path[j] in g.vertices {
      if 0 < j < |path| - 1 {
        assert 1 <= j < |path| - 1;
      }
    }
  }

  /** Peeling the first node off a node sum. */
  lemma {:induction false} NodeSumFront(g: Graph, negLn: NegLog, path: seq<int>, hi: nat)
    requires 1 <= hi <= |path|
    requires forall j :: 0 <= j < hi ==> path[j] in g.vertices
    ensures NodeSum(g, negLn, path, 0, hi).reliability ==
            negLn(g.vertices[path[0]].reliability) + NodeSum(g, negLn, path, 1, hi).reliability
    decreases hi
  {
    if hi > 1 {
      NodeSumFront(g, negLn, path, hi - 1);
    }
  }

  /** On a well-formed graph every metric of an evaluated path is non-negative,
      and the resource cost of a path with a hop is positive. */
  lemma PathMetricsNonnegative(g: Graph, negLn: NegLog, path: seq<int>)
    requires WellFormed(g) && NegLogNonneg(negLn)
    requires PathMetrics(g, negLn, path).Ok?
    ensures var m := PathMetrics(g, negLn, path).value;
      m.delay >= 0.0 && m.reliability >= 0.0 && m.resource >= 0.0 &&
      (|path| >= 2 ==> m.resource > 0.0)
  {
    CalcSumNonnegative(g, negLn, path, |path| - 1);
  }

  lemma {:induction false} CalcSumNonnegative(g: Graph, negLn: NegLog, path: seq<int>, n: nat)
    requires WellFormed(g) && NegLogNonneg(negLn)
    requires n < |path|
    requires forall i :: 0 <= i < n ==> CalcHopFault(g, path, i).None?
    ensures var m := CalcSum(g, negLn, path, n);
      m.delay >= 0.0 && m.reliability >= 0.0 && m.resource >= 0.0 && (n > 0 ==> m.resource > 0.0)
  {
    if n > 0 {
      CalcSumNonnegative(g, negLn, path, n - 1);
      var i := n - 1;
      assert CalcHopFault(g, path, i).None?;
      FoundLinkOk(g, path[i], path[i + 1]);
      var l := GetLinkInfo(g, path[i], path[i + 1]).value;
      QuotientPositive(MaxBandwidth, l.bandwidth);
      assert CalcSum(g, negLn, path, n) == Plus(CalcSum(g, negLn, path, i), CalcHop(g, negLn, path, i));
    }
  }

  /** With non-negative weights the weighted path cost is non-negative. */
  lemma WeightedPathCostNonnegative(g: Graph, negLn: NegLog, path: seq<int>, w: Weights)
    requires WellFormed(g) && NegLogNonneg(negLn)
    requires w.delay >= 0.0 && w.reliability >= 0.0 && w.resource >= 0.0
    requires WeightedPathCost(g, negLn, path, w).Ok?
    ensures WeightedPathCost(g, negLn, path, w).value >= 0.0
  {
    PathMetricsNonnegative(g, negLn, path);
    CombineNonneg(w, PathMetrics(g, negLn, path).value);
  }

  /** Hop by hop the two evaluators agree on a path without repeated nodes:
      only the first hop's origin is exempt from node costs in both. */
  lemma {:induction false} SumsAgree(g: Graph, negLn: NegLog, path: seq<int>, n: nat)
    requires WellFormed(g) && Distinct(path)
    requires n < |path|
    requires forall i :: 0 <= i < n ==> CalcHopFault(g, path, i).None?
    ensures forall i :: 0 <= i < n ==> !NetHopStops(g, path, i)
    ensures CalcSum(g, negLn, path, n) == NetSum(g, negLn, path, n)
  {
    if n > 0 {
      SumsAgree(g, negLn, path, n - 1);
      var i := n - 1;
      assert CalcHopFault(g, path, i).None?;
      FoundLinkOk(g, path[i], path[i + 1]);
      assert !NetHopStops(g, path, i);
      var l := GetLinkInfo(g, path[i], path[i + 1]).value;
      assert RelCost(negLn, l.reliability) == negLn(l.reliability);
      if i > 0 {
        assert path[i] != path[0] && path[i] != path[|path| - 1];
        assert ChargedOrigin(g, path, i);
        assert RelCost(negLn, g.vertices[path[i]].reliability) == negLn(g.vertices[path[i]].reliability);
      } else {
        assert !ChargedOrigin(g, path, i);
      }
      assert CalcHop(g, negLn, path, i) == NetHop(g, negLn, path, i);
    }
  }

  /** calculate_metrics (network_module.py) and calculate_path_metrics agree
      on a path without repeated nodes over a well-formed graph, except that
      the latter also charges the end nodes' reliability costs. */
  lemma NetworkAndCalculatorAgree(g: Graph, negLn: NegLog, path: seq<int>)
    requires WellFormed(g) && Distinct(path)
    requires PathMetrics(g, negLn, path).Ok?
    ensures NetMetrics(g, negLn, path).Measured?
    ensures var c, n := PathMetrics(g, negLn, path).value, NetMetrics(g, negLn, path).metrics;
      c.delay == n.delay && c.resource == n.resource &&
      c.reliability == n.reliability + negLn(g.vertices[path[0]].reliability) +
                                       negLn(g.vertices[path[|path| - 1]].reliability)
  {
    var h := |path| - 1;
    SumsAgree(g, negLn, path, h);
    NetFirstStopIs(g, path, h);
  }
}
