/** aco_algorithm.py: the Ant Colony System search. A pheromone table keyed
    by directed edges is initialised from the adjacency, updated locally on
    every edge an ant takes, evaporated globally and reinforced along the
    best path of each iteration; the best path over all ants is kept. */
module AntColony {
  import opened Common
  import opened Network
  import opened MetricsCalculator

  /** The run parameters with their defaults (`params.get(name, default)`).
      The exponents are whole numbers here; see README. */
  datatype AcsParams = AcsParams(
    numAnts: nat, numIters: nat, maxSteps: nat,
    alpha: nat, beta: nat,
    rho: real, phi: real, tau0: real, q0: real)

  const DefaultParams: AcsParams := AcsParams(20, 10, 200, 1, 2, 0.1, 0.1, 0.1, 0.3)

  /** The `1e-9` added to a cost before it is inverted. */
  const Epsilon: real := 0.000000001

  /** The pheromone assumed by the transition rule for an edge with no entry. */
  const TauFloor: real := 0.000001

  /** `pheromone.get(e, default)`. */
  function TauOr(tau: map<Edge, real>, e: Edge, default: real): real {
    if e in tau then tau[e] else default
  }

  // ---------------------------------------------------------------- evaluate_path

  /** Whether hop i of evaluate_path raises inside calculate_link_cost. */
  predicate AcoHopFails(g: Graph, negLn: NegLog, path: seq<int>, i: nat)
    requires i + 1 < |path|
  {
    LinkCost(g, negLn, path[i], path[i + 1]).Err?
  }

  function AcoFirstFault(g: Graph, negLn: NegLog, path: seq<int>, i: nat): (k: nat)
    requires i < |path|
    ensures i <= k < |path|
    ensures forall j :: i <= j < k ==> !AcoHopFails(g, negLn, path, j)
    ensures k < |path| - 1 ==> AcoHopFails(g, negLn, path, k)
    decreases |path| - i
  {
    if i == |path| - 1 then i
    else if AcoHopFails(g, negLn, path, i) then i
    else AcoFirstFault(g, negLn, path, i + 1)
  }

  lemma AcoFirstFaultIs(g: Graph, negLn: NegLog, path: seq<int>, k: nat)
    requires k < |path|
    requires forall j :: 0 <= j < k ==> !AcoHopFails(g, negLn, path, j)
    requires k < |path| - 1 ==> AcoHopFails(g, negLn, path, k)
    ensures AcoFirstFault(g, negLn, path, 0) == k
  {
  }

  /** The link costs of the first n hops, added up. */
  function AcoSum(g: Graph, negLn: NegLog, path: seq<int>, n: nat): Metrics
    requires n < |path|
    requires forall i :: 0 <= i < n ==> !AcoHopFails(g, negLn, path, i)
  {
    if n == 0 then NoCost
    else
      assert !AcoHopFails(g, negLn, path, n - 1);
      Plus(AcoSum(g, negLn, path, n - 1), LinkCost(g, negLn, path[n - 1], path[n]).value)
  }

  /** evaluate_path's three totals: the sum of calculate_link_cost over the
      hops, less the processing delay of path[0] when there is a hop; an
      exception of calculate_link_cost propagates. */
  function AcoMetrics(g: Graph, negLn: NegLog, path: seq<int>): Result<Metrics> {
    if |path| < 2 then Ok(NoCost)
    else
      var h := |path| - 1;
      var k := AcoFirstFault(g, negLn, path, 0);
      if k < h then Err(LinkCost(g, negLn, path[k], path[k + 1]).fault)
      else
        assert !AcoHopFails(g, negLn, path, 0);
        var m := AcoSum(g, negLn, path, h);
        Ok(Metrics(m.delay - g.vertices[path[0]].processingDelay, m.reliability, m.resource))
  }

  datatype Evaluation = Evaluation(metrics: Metrics, cost: real)

  /** evaluate_path: (total_delay, total_rel, total_res, total_cost). */
  method EvaluatePath(g: Graph, negLn: NegLog, path: seq<int>, w: Weights) returns (r: Result<Evaluation>)
    ensures r.Ok? <==> AcoMetrics(g, negLn, path).Ok?
    ensures r.Ok? ==> r.value == Evaluation(AcoMetrics(g, negLn, path).value, Combine(w, AcoMetrics(g, negLn, path).value))
    ensures r.Err? ==> r.fault == AcoMetrics(g, negLn, path).fault
  {
    var totalDelay, totalRel, totalRes := 0.0, 0.0, 0.0;
    for i := 0 to Hops(path)
      invariant forall j :: 0 <= j < i ==> !AcoHopFails(g, negLn, path, j)
      invariant i > 0 ==> Metrics(totalDelay, totalRel, totalRes) == AcoSum(g, negLn, path, i)
      invariant i == 0 ==> Metrics(totalDelay, totalRel, totalRes) == NoCost
    {
      var m := LinkCost(g, negLn, path[i], path[i + 1]);
      if m.Err? {
        AcoFirstFaultIs(g, negLn, path, i);
        return Err(m.fault);
      }
      totalDelay := totalDelay + m.value.delay;
      totalRel := totalRel + m.value.reliability;
      totalRes := totalRes + m.value.resource;
      assert !AcoHopFails(g, negLn, path, i);
      assert AcoSum(g, negLn, path, i + 1) == Plus(AcoSum(g, negLn, path, i), m.value);
    }
    if |path| >= 2 {
      AcoFirstFaultIs(g, negLn, path, |path| - 1);
      assert !AcoHopFails(g, negLn, path, 0);
      var s := path[0];
      totalDelay := totalDelay - g.vertices[s].processingDelay;
    }
    var metrics := Metrics(totalDelay, totalRel, totalRes);
    return Ok(Evaluation(metrics, Combine(w, metrics)));
  }

  lemma {:induction false} AcoSumIsCalcSum(g: Graph, negLn: NegLog, path: seq<int>, n: nat)
    requires 0 < n < |path|
    requires forall i :: 0 <= i < n ==> !AcoHopFails(g, negLn, path, i)
    ensures path[0] in g.vertices
    ensures forall i :: 0 <= i < n ==> CalcHopFault(g, path, i).None?
    ensures var s := g.vertices[path[0]];
      AcoSum(g, negLn, path, n) == Plus(CalcSum(g, negLn, path, n), Metrics(s.processingDelay, negLn(s.reliability), 0.0))
  {
    assert !AcoHopFails(g, negLn, path, 0);
    if n > 1 {
      AcoSumIsCalcSum(g, negLn, path, n - 1);
      var i := n - 1;
      assert !AcoHopFails(g, negLn, path, i);
      InteriorHopIsLinkCost(g, negLn, path, i);
    }
  }

  /** evaluate_path agrees with calculate_path_metrics wherever both succeed:
      the same delay (both leave out the end nodes' processing delays) and
      resource cost, while evaluate_path leaves out the destination's
      reliability cost. */
  lemma AcoAgreesWithCalculator(g: Graph, negLn: NegLog, path: seq<int>)
    requires |path| >= 2 && AcoMetrics(g, negLn, path).Ok?
    requires path[|path| - 1] in g.vertices
    ensures PathMetrics(g, negLn, path).Ok?
    ensures var a, c := AcoMetrics(g, negLn, path).value, PathMetrics(g, negLn, path).value;
      a.delay == c.delay && a.resource == c.resource &&
      a.reliability + negLn(g.vertices[path[|path| - 1]].reliability) == c.reliability
  {
    var h := |path| - 1;
    AcoSumIsCalcSum(g, negLn, path, h);
    CalcFirstFaultIs(g, path, h);
  }

  // ---------------------------------------------------------------- the transition rule

  /** _heuristic_cost: the inverse of the weighted link cost plus 1e-9. The
      weight check and calculate_link_cost may raise. At a cost of exactly
      -1e-9 the float64 division gives +inf, which `real` cannot hold: the
      model reports DivisionByZero there instead. */
  function HeuristicCost(g: Graph, negLn: NegLog, u: int, v: int, w: Weights): (r: Result<real>)
    ensures WeightedLinkCost(g, negLn, u, v, w).Err? ==> r == Err(WeightedLinkCost(g, negLn, u, v, w).fault)
    ensures WeightedLinkCost(g, negLn, u, v, w).Ok? && WeightedLinkCost(g, negLn, u, v, w).value + Epsilon == 0.0 ==>
      r == Err(DivisionByZero)
    ensures r.Ok? ==> (WeightedLinkCost(g, negLn, u, v, w).Ok? &&
      r.value * (WeightedLinkCost(g, negLn, u, v, w).value + Epsilon) == 1.0)
  {
    match WeightedLinkCost(g, negLn, u, v, w)
    case Err(f) => Err(f)
    case Ok(c) => if c + Epsilon == 0.0 then Err(DivisionByZero) else Ok(1.0 / (c + Epsilon))
  }

  /** On a well-formed graph with non-negative weights the heuristic is positive. */
  lemma HeuristicPositive(g: Graph, negLn: NegLog, u: int, v: int, w: Weights)
    requires WellFormed(g) && NegLogNonneg(negLn)
    requires w.delay >= 0.0 && w.reliability >= 0.0 && w.resource >= 0.0
    requires HeuristicCost(g, negLn, u, v, w).Ok?
    ensures HeuristicCost(g, negLn, u, v, w).value > 0.0
  {
    var m := LinkCost(g, negLn, u, v).value;
    FoundLinkOk(g, u, v);
    var l := GetLinkInfo(g, u, v).value;
    assert m.resource == MaxBandwidth / l.bandwidth;
    QuotientPositive(MaxBandwidth, l.bandwidth);
    CombineNonneg(w, m);
    var c := WeightedLinkCost(g, negLn, u, v, w).value;
    assert c + Epsilon > 0.0;
    assert HeuristicCost(g, negLn, u, v, w) == Ok(1.0 / (c + Epsilon));
    QuotientPositive(1.0, c + Epsilon);
  }

  /** `(tau ** alpha) * (eta ** beta)` for one candidate v. */
  function Score(g: Graph, negLn: NegLog, tau: map<Edge, real>, w: Weights, current: int, v: int, prm: AcsParams): (r: Result<real>)
    ensures r.Err? <==> HeuristicCost(g, negLn, current, v, w).Err?
    ensures r.Err? ==> r.fault == HeuristicCost(g, negLn, current, v, w).fault
  {
    match HeuristicCost(g, negLn, current, v, w)
    case Err(f) => Err(f)
    case Ok(eta) => Ok(Pow(TauOr(tau, (current, v), TauFloor), prm.alpha) * Pow(eta, prm.beta))
  }

  /** On a well-formed graph with non-negative weights, a candidate's score
      is positive when its pheromone (or the 1e-6 floor) is. */
  lemma ScorePositive(g: Graph, negLn: NegLog, tau: map<Edge, real>, w: Weights, current: int, v: int, prm: AcsParams)
    requires WellFormed(g) && NegLogNonneg(negLn)
    requires w.delay >= 0.0 && w.reliability >= 0.0 && w.resource >= 0.0
    requires TauOr(tau, (current, v), TauFloor) > 0.0
    requires Score(g, negLn, tau, w, current, v, prm).Ok?
    ensures Score(g, negLn, tau, w, current, v, prm).value > 0.0
  {
    HeuristicPositive(g, negLn, current, v, w);
    var eta := HeuristicCost(g, negLn, current, v, w).value;
    PowPositive(TauOr(tau, (current, v), TauFloor), prm.alpha);
    PowPositive(eta, prm.beta);
    MulPositive(Pow(TauOr(tau, (current, v), TauFloor), prm.alpha), Pow(eta, prm.beta));
  }

  /** The scores of all candidates in order, or the exception of the first
      candidate whose score raises (every candidate is scored before any draw). */
  function ScoreAll(g: Graph, negLn: NegLog, tau: map<Edge, real>, w: Weights, current: int, ns: seq<int>, prm: AcsParams): (r: Result<seq<real>>)
    ensures r.Ok? ==> (|r.value| == |ns| &&
      forall i :: 0 <= i < |ns| ==> Score(g, negLn, tau, w, current, ns[i], prm) == Ok(r.value[i]))
  {
    if ns == [] then Ok([])
    else
      match ScoreAll(g, negLn, tau, w, current, ns[..|ns| - 1], prm)
      case Err(f) => Err(f)
      case Ok(xs) =>
        match Score(g, negLn, tau, w, current, ns[|ns| - 1], prm)
        case Err(f) => Err(f)
        case Ok(x) => Ok(xs + [x])
  }

  /** The exception ScoreAll reports is that of the first candidate whose score raises. */
  lemma {:induction false} ScoreAllFirstFault(g: Graph, negLn: NegLog, tau: map<Edge, real>, w: Weights, current: int,
                                             ns: seq<int>, prm: AcsParams)
    requires ScoreAll(g, negLn, tau, w, current, ns, prm).Err?
    ensures exists i :: (0 <= i < |ns| && Score(g, negLn, tau, w, current, ns[i], prm) == Err(ScoreAll(g, negLn, tau, w, current, ns, prm).fault) &&
      forall j :: 0 <= j < i ==> Score(g, negLn, tau, w, current, ns[j], prm).Ok?)
    decreases |ns|
  {
    var ns' := ns[..|ns| - 1];
    var f := ScoreAll(g, negLn, tau, w, current, ns, prm).fault;
    if ScoreAll(g, negLn, tau, w, current, ns', prm).Err? {
      ScoreAllFirstFault(g, negLn, tau, w, current, ns', prm);
      var i :| 0 <= i < |ns'| && Score(g, negLn, tau, w, current, ns'[i], prm) == Err(f) &&
        forall j :: 0 <= j < i ==> Score(g, negLn, tau, w, current, ns'[j], prm).Ok?;
      assert ns[i] == ns'[i];
      assert forall j :: 0 <= j < i ==> ns[j] == ns'[j];
    } else {
      var i := |ns| - 1;
      assert Score(g, negLn, tau, w, current, ns[i], prm) == Err(f);
      assert forall j :: 0 <= j < i ==> ns[j] == ns'[j];
    }
  }

  /** The running total of the scores up to and including index m. */
  function Running(scores: seq<real>, m: nat): real
    requires m < |scores|
  {
    Sum(scores[..m + 1])
  }

  /** The roulette pick: the first index at or after i whose running total
      of scores reaches r, or the last index when none does. */
  function RouletteIndex(scores: seq<real>, r: real, i: nat): (j: nat)
    requires i < |scores|
    ensures i <= j < |scores|
    decreases |scores| - i
  {
    if Running(scores, i) >= r || i == |scores| - 1 then i else RouletteIndex(scores, r, i + 1)
  }

  /** The roulette stops at the first index whose running total reaches r:
      every running total it passes is below r, and unless it stopped at the
      last index its own total reaches r. */
  lemma {:induction false} RouletteIndexIsFirst(scores: seq<real>, r: real, i: nat)
    requires i < |scores|
    ensures var j := RouletteIndex(scores, r, i);
      (forall m :: i <= m < j ==> Running(scores, m) < r) && (j < |scores| - 1 ==> Running(scores, j) >= r)
    decreases |scores| - i
  {
    if !(Running(scores, i) >= r || i == |scores| - 1) {
      RouletteIndexIsFirst(scores, r, i + 1);
    }
  }

  /** The roulette's target `random.random() * total` for a draw u. */
  function Spin(u: real, scores: seq<real>): real {
    u * Sum(scores)
  }

  /** The roulette loop of _choose_next_acs. */
  method Roulette(ns: seq<int>, scores: seq<real>, r: real) returns (v: int)
    requires |ns| == |scores| > 0
    ensures v == ns[RouletteIndex(scores, r, 0)]
  {
    RouletteIndexIsFirst(scores, r, 0);
    var acc := 0.0;
    for i := 0 to |scores|
      invariant acc == Sum(scores[..i])
      invariant forall m :: 0 <= m < i ==> Running(scores, m) < r
    {
      assert scores[..i + 1][..i] == scores[..i];
      acc := acc + scores[i];
      assert acc == Running(scores, i);
      if acc >= r {
        return ns[i];
      }
    }
    return ns[|ns| - 1];
  }

  lemma SumPrefixMonotone(scores: seq<real>, i: nat, j: nat)
    requires i <= j <= |scores|
    requires forall m :: 0 <= m < |scores| ==> scores[m] >= 0.0
    ensures Sum(scores[..i]) <= Sum(scores[..j])
    decreases j - i
  {
    if i < j {
      SumPrefixMonotone(scores, i, j - 1);
      assert scores[..j][..j - 1] == scores[..j - 1];
    }
  }

  /** With non-negative scores and 0 < r < their total, the roulette lands in
      the slot of a candidate with a positive score: r lies in
      (Σ scores[..j], Σ scores[..j+1]]. */
  lemma RouletteLandsInSlot(scores: seq<real>, r: real)
    requires |scores| > 0
    requires forall m :: 0 <= m < |scores| ==> scores[m] >= 0.0
    requires 0.0 < r < Sum(scores)
    ensures var j := RouletteIndex(scores, r, 0);
      Sum(scores[..j]) < r <= Sum(scores[..j + 1]) && scores[j] > 0.0
  {
    var j := RouletteIndex(scores, r, 0);
    RouletteIndexIsFirst(scores, r, 0);
    assert scores[..|scores|] == scores;
    assert Running(scores, j) >= r by {
      if j == |scores| - 1 {
        assert Running(scores, j) == Sum(scores);
      }
    }
    if j > 0 {
      assert Running(scores, j - 1) < r;
      assert scores[..j - 1 + 1] == scores[..j];
    }
    assert scores[..j + 1][..j] == scores[..j];
  }

  // ---------------------------------------------------------------- the pheromone table

  /** The global Ant Colony System deposit along the first n hops of a path,
      missing entries counting as 0.0. */
  function Deposited(tau: map<Edge, real>, path: seq<int>, delta: real, rho: real, n: nat): map<Edge, real>
    requires n <= Hops(path)
  {
    if n == 0 then tau
    else
      var prev := Deposited(tau, path, delta, rho, n - 1);
      var e := Hop(path, n - 1);
      prev[e := Blend(TauOr(prev, e, 0.0), delta, rho)]
  }

  /** The deposit adds exactly the path's edges as keys and leaves every other
      entry as it was. */
  lemma {:induction false} DepositedFrame(tau: map<Edge, real>, path: seq<int>, delta: real, rho: real, n: nat)
    requires n <= Hops(path)
    ensures forall e :: e in Deposited(tau, path, delta, rho, n) <==> e in tau || e in EdgesUpTo(path, n)
    ensures forall e :: e in tau && e !in EdgesUpTo(path, n) ==> Deposited(tau, path, delta, rho, n)[e] == tau[e]
  {
    if n > 0 {
      DepositedFrame(tau, path, delta, rho, n - 1);
      assert EdgesUpTo(path, n) == EdgesUpTo(path, n - 1) + {Hop(path, n - 1)};
    }
  }

  /** With delta > 0 and rho in (0, 1], a deposit over non-negative entries
      keeps every entry non-negative and leaves every edge of the path with
      positive pheromone. */
  lemma {:induction false} DepositedReinforces(tau: map<Edge, real>, path: seq<int>, delta: real, rho: real, n: nat)
    requires n <= Hops(path)
    requires delta > 0.0 && 0.0 < rho <= 1.0
    requires forall e :: e in tau ==> tau[e] >= 0.0
    ensures forall e :: e in Deposited(tau, path, delta, rho, n) ==> Deposited(tau, path, delta, rho, n)[e] >= 0.0
    ensures forall i :: 0 <= i < n ==> Hop(path, i) in Deposited(tau, path, delta, rho, n) &&
                                       Deposited(tau, path, delta, rho, n)[Hop(path, i)] > 0.0
  {
    if n > 0 {
      DepositedReinforces(tau, path, delta, rho, n - 1);
      var prev := Deposited(tau, path, delta, rho, n - 1);
      var e := Hop(path, n - 1);
      var before := TauOr(prev, e, 0.0);
      assert before >= 0.0;
      BlendPositive(before, delta, rho);
      var next := Deposited(tau, path, delta, rho, n);
      assert next == prev[e := Blend(before, delta, rho)];
      forall i | 0 <= i < n ensures Hop(path, i) in next && next[Hop(path, i)] > 0.0 {
        if Hop(path, i) != e {
          assert i < n - 1;
          assert next[Hop(path, i)] == prev[Hop(path, i)];
        }
      }
    }
  }

  /** Some element of a non-empty set: the order in which a dict's keys are
      visited does not matter to the updates that visit them. */
  method AnyOf<T>(s: set<T>) returns (x: T)
    requires s != {}
    ensures x in s
  {
    x :| x in s;
  }

  datatype Status = Done | Failed(fault: Fault)

  /** The pheromone dict, updated in place by the three update rules. */
  class PheromoneTable {
    var tau: map<Edge, real>

    /** _init_pheromone: one entry tau0 for every neighbour of every vertex. */
    constructor Init(g: Graph, tau0: real)
      ensures forall u, v :: (u, v) in tau <==> u in g.vertices && v in GetNeighbors(g, u)
      ensures forall e :: e in tau ==> tau[e] == tau0
      ensures tau == InitialTau(g, tau0)
    {
      var pher: map<Edge, real> := map[];
      var pending := g.vertices.Keys;
      while pending != {}
        invariant pending <= g.vertices.Keys
        invariant forall a, b :: (a, b) in pher <==> a in g.vertices && a !in pending && b in GetNeighbors(g, a)
        invariant forall e :: e in pher ==> pher[e] == tau0
        decreases pending
      {
        var u := AnyOf(pending);
        var ns := GetNeighbors(g, u);
        for j := 0 to |ns|
          invariant forall a, b :: (a, b) in pher <==>
            (a in g.vertices && a !in pending && b in GetNeighbors(g, a)) || (a == u && b in ns[..j])
          invariant forall e :: e in pher ==> pher[e] == tau0
        {
          assert ns[..j + 1] == ns[..j] + [ns[j]];
          pher := pher[(u, ns[j]) := tau0];
        }
        assert ns[..|ns|] == ns;
        pending := pending - {u};
      }
      ghost var init := InitialTau(g, tau0);
      forall e | e in pher ensures e in init && init[e] == pher[e] {
        var a, b := e.0, e.1;
        assert (a, b) in pher;
      }
      forall e | e in init ensures e in pher {
        var a, b :| a in g.vertices && b in GetNeighbors(g, a) && e == (a, b);
      }
      assert pher.Keys == init.Keys;
      tau := pher;
    }

    /** _local_update: only the entry of (u, v) changes, blended towards tau0;
        a missing entry counts as tau0. */
    method LocalUpdate(u: int, v: int, phi: real, tau0: real)
      modifies this
      ensures tau == old(tau)[(u, v) := Blend(TauOr(old(tau), (u, v), tau0), tau0, phi)]
    {
      tau := tau[(u, v) := Blend(TauOr(tau, (u, v), tau0), tau0, phi)];
    }

    /** _global_evaporate: every entry is scaled by (1 - rho); no key is added
        or removed, and positive entries stay positive when rho < 1. */
    method Evaporate(rho: real)
      modifies this
      ensures tau.Keys == old(tau).Keys
      ensures forall e :: e in tau ==> tau[e] == old(tau)[e] * (1.0 - rho)
      ensures rho < 1.0 ==> forall e :: e in tau && old(tau)[e] > 0.0 ==> tau[e] > 0.0
      ensures tau == Evaporated(old(tau), rho)
    {
      var pending := tau.Keys;
      while pending != {}
        invariant pending <= tau.Keys && tau.Keys == old(tau).Keys
        invariant forall e :: e in tau ==> tau[e] == if e in pending then old(tau)[e] else old(tau)[e] * (1.0 - rho)
        decreases pending
      {
        var e := AnyOf(pending);
        tau := tau[e := tau[e] * (1.0 - rho)];
        pending := pending - {e};
      }
      ghost var target := Evaporated(old(tau), rho);
      assert tau.Keys == target.Keys;
      assert forall e :: e in tau ==> tau[e] == target[e];
    }

    /** _global_deposit_best: the path's edges are blended towards
        1 / (best_cost + 1e-9). Where the denominator is zero the float64
        division gives +inf; the model reports DivisionByZero instead. */
    method DepositBest(bestPath: seq<int>, bestCost: real, rho: real) returns (st: Status)
      modifies this
      ensures bestCost + Epsilon == 0.0 ==> st == Failed(DivisionByZero) && tau == old(tau)
      ensures bestCost + Epsilon != 0.0 ==>
        st == Done && tau == Deposited(old(tau), bestPath, 1.0 / (bestCost + Epsilon), rho, Hops(bestPath))
    {
      if bestCost + Epsilon == 0.0 {
        return Failed(DivisionByZero);
      }
      var delta := 1.0 / (bestCost + Epsilon);
      for i := 0 to Hops(bestPath)
        invariant tau == Deposited(old(tau), bestPath, delta, rho, i)
      {
        var e := (bestPath[i], bestPath[i + 1]);
        assert e == Hop(bestPath, i);
        tau := tau[e := Blend(TauOr(tau, e, 0.0), delta, rho)];
      }
      return Done;
    }

    /** The scoring loop of _choose_next_acs: every candidate is scored in
        order, and the first score that raises aborts the choice. */
    method ScoreNeighbors(g: Graph, negLn: NegLog, w: Weights, current: int, neighbors: seq<int>, prm: AcsParams)
      returns (r: Result<seq<real>>)
      ensures r == ScoreAll(g, negLn, tau, w, current, neighbors, prm)
    {
      var scored: seq<real> := [];
      for i := 0 to |neighbors|
        invariant ScoreAll(g, negLn, tau, w, current, neighbors[..i], prm) == Ok(scored)
      {
        assert neighbors[..i + 1][..i] == neighbors[..i];
        var value := Score(g, negLn, tau, w, current, neighbors[i], prm);
        if value.Err? {
          ScoreAllPrefixFails(g, negLn, tau, w, current, neighbors, i + 1, prm);
          return Err(value.fault);
        }
        scored := scored + [value.value];
      }
      assert neighbors[..|neighbors|] == neighbors;
      return Ok(scored);
    }

    /** _choose_next_acs, proved against TransitionRule. */
    method ChooseNext(g: Graph, negLn: NegLog, w: Weights, current: int, visited: set<int>,
                      prm: AcsParams, draws: Draws, k: nat) returns (r: Result<Option<int>>, k': nat)
      ensures Choice(r, k') == TransitionRule(g, negLn, tau, w, current, visited, prm, draws, k)
      ensures r.Ok? && r.value.Some? ==> r.value.value in GetNeighbors(g, current) && r.value.value !in visited
    {
      TransitionRuleChoosesUnvisitedNeighbor(g, negLn, tau, w, current, visited, prm, draws, k);
      var neighbors := Unvisited(GetNeighbors(g, current), visited);
      if neighbors == [] {
        return Ok(None), k;
      }
      var scores := ScoreNeighbors(g, negLn, w, current, neighbors, prm);
      if scores.Err? {
        return Err(scores.fault), k;
      }
      var scored := scores.value;
      ghost var rule := TransitionRule(g, negLn, tau, w, current, visited, prm, draws, k);
      if draws(k) < prm.q0 {
        assert rule == Choice(Ok(Some(neighbors[FirstMax(scored)])), k + 1);
        return Ok(Some(neighbors[FirstMax(scored)])), k + 1;
      }
      var pick := Roulette(neighbors, scored, Spin(draws(k + 1), scored));
      return Ok(Some(pick)), k + 2;
    }

    /** _build_ant_path_acs: a walk from `source` that takes a fresh neighbour
        at every step and updates that edge's pheromone locally. It returns
        the walk once it stands on `dest`, and None at a dead end or after
        max_steps steps. The returned path is simple, follows the adjacency
        (with no bandwidth check) and has at most max_steps nodes. */
    method BuildAntPath(g: Graph, negLn: NegLog, w: Weights, source: int, dest: int,
                        prm: AcsParams, draws: Draws, k: nat)
      returns (r: Result<Option<seq<int>>>, k': nat, ghost walk: seq<int>)
      modifies this
      ensures |walk| >= 1 && walk[0] == source && Distinct(walk) && Along(g, walk)
      ensures r.Ok? && r.value.Some? ==>
        r.value.value == walk && Route(walk, source, dest) && |walk| <= prm.maxSteps
      ensures TouchedOnly(old(tau), tau, Edges(walk))
      ensures AntRun(r, tau, k') == AntWalk(AcsRule(g, negLn, w, prm, draws), dest, prm, old(tau), [source], k)
    {
      ghost var spec := AntWalk(AcsRule(g, negLn, w, prm, draws), dest, prm, tau, [source], k);
      var current := source;
      var visited := {current};
      var path := [current];
      k' := k;
      for step := 0 to prm.maxSteps
        invariant |path| == step + 1 && AntPath(g, source, current, path) && visited == Elems(path)
        invariant TouchedOnly(old(tau), tau, Edges(path))
        invariant spec == AntWalk(AcsRule(g, negLn, w, prm, draws), dest, prm, tau, path, k')
      {
        if current == dest {
          return Ok(Some(path)), k', path;
        }
        var next, k1 := ChooseNext(g, negLn, w, current, visited, prm, draws, k');
        AcsWalkStep(g, negLn, w, prm, draws, dest, tau, path, k', Choice(next, k1));
        k' := k1;
        if next.Err? {
          return Err(next.fault), k', path;
        }
        if next.value.None? {
          return Ok(None), k', path;
        }
        var nxt := next.value.value;
        ghost var before := tau;
        LocalUpdate(current, nxt, prm.phi, prm.tau0);
        TouchedOnlyStep(old(tau), before, path, nxt, tau[(current, nxt)]);
        AntPathStep(g, source, path, nxt);
        path := path + [nxt];
        visited := visited + {nxt};
        current := nxt;
      }
      return Ok(None), k', path;
    }
  }

  /** One decision of the transition rule: the chosen node (None at a dead
      end, or an exception) and the index of the next unused draw. */
  datatype Choice = Choice(next: Result<Option<int>>, cursor: nat)

  /** The ACS transition rule: None when every neighbour is visited;
      otherwise every unvisited neighbour is scored, and a first draw below
      q0 takes the first of maximal score, else a second draw spins the
      roulette over the scores. */
  function TransitionRule(g: Graph, negLn: NegLog, tau: map<Edge, real>, w: Weights, current: int,
                          visited: set<int>, prm: AcsParams, draws: Draws, k: nat): (c: Choice)
    ensures c.next.Err? <==>
      Unvisited(GetNeighbors(g, current), visited) != [] &&
      ScoreAll(g, negLn, tau, w, current, Unvisited(GetNeighbors(g, current), visited), prm).Err?
    ensures c.next.Err? ==>
      c.next.fault == ScoreAll(g, negLn, tau, w, current, Unvisited(GetNeighbors(g, current), visited), prm).fault
    ensures c.next.Ok? && c.next.value.Some? ==> c.cursor == if draws(k) < prm.q0 then k + 1 else k + 2
    ensures !(c.next.Ok? && c.next.value.Some?) ==> c.cursor == k
  {
    var ns := Unvisited(GetNeighbors(g, current), visited);
    if ns == [] then Choice(Ok(None), k)
    else
      match ScoreAll(g, negLn, tau, w, current, ns, prm)
      case Err(f) => Choice(Err(f), k)
      case Ok(scores) =>
        if draws(k) < prm.q0 then Choice(Ok(Some(ns[FirstMax(scores)])), k + 1)
        else Choice(Ok(Some(ns[RouletteIndex(scores, Spin(draws(k + 1), scores), 0)])), k + 2)
  }

  /** The outcome of one ant: its answer, the pheromone table after its local
      updates, and the index of the next unused draw. */
  datatype AntRun = AntRun(result: Result<Option<seq<int>>>, tau: map<Edge, real>, cursor: nat)

  /** A transition rule: from the table, the current node, the visited
      nodes and the draw cursor, the choice it makes. */
  type Rule = (map<Edge, real>, int, set<int>, nat) -> Choice

  /** The Ant Colony System rule over one graph, weight triple, parameter
      set and draw source. */
  function AcsRule(g: Graph, negLn: NegLog, w: Weights, prm: AcsParams, draws: Draws): Rule {
    (t: map<Edge, real>, u: int, visited: set<int>, c: nat) => TransitionRule(g, negLn, t, w, u, visited, prm, draws, c)
  }

  /** The ant walk continuing `path`, one node per step for at most
      max_steps steps: once max_steps steps are taken it answers None;
      standing on `dest` answers the path; otherwise the ant makes a move. */
  function AntWalk(rule: Rule, dest: int, prm: AcsParams, tau: map<Edge, real>, path: seq<int>, k: nat): AntRun
    requires path != []
    decreases prm.maxSteps + 1 - |path|, 1
  {
    if |path| > prm.maxSteps then AntRun(Ok(None), tau, k)
    else if path[|path| - 1] == dest then AntRun(Ok(Some(path)), tau, k)
    else AntMove(rule, dest, prm, tau, path, k)
  }

  /** One move: the rule decides; a chosen node is appended after its edge
      is blended towards tau0, and the walk goes on from the longer path. */
  function AntMove(rule: Rule, dest: int, prm: AcsParams, tau: map<Edge, real>, path: seq<int>, k: nat): AntRun
    requires 0 < |path| <= prm.maxSteps
    decreases prm.maxSteps + 1 - |path|, 0
  {
    var current := path[|path| - 1];
    var c := rule(tau, current, Elems(path), k);
    match c.next
    case Err(f) => AntRun(Err(f), tau, c.cursor)
    case Ok(None) => AntRun(Ok(None), tau, c.cursor)
    case Ok(Some(v)) =>
      var tau' := tau[(current, v) := Blend(TauOr(tau, (current, v), prm.tau0), prm.tau0, prm.phi)];
      AntWalk(rule, dest, prm, tau', path + [v], c.cursor)
  }

  /** One step of the walk off `dest` with steps left, given the rule's choice. */
  lemma AntWalkStep(rule: Rule, dest: int, prm: AcsParams, tau: map<Edge, real>, path: seq<int>, k: nat, c: Choice)
    requires 0 < |path| <= prm.maxSteps && path[|path| - 1] != dest
    requires c == rule(tau, path[|path| - 1], Elems(path), k)
    ensures c.next.Err? ==> AntWalk(rule, dest, prm, tau, path, k) == AntRun(Err(c.next.fault), tau, c.cursor)
    ensures c.next == Ok(None) ==> AntWalk(rule, dest, prm, tau, path, k) == AntRun(Ok(None), tau, c.cursor)
    ensures c.next.Ok? && c.next.value.Some? ==>
      var current, v := path[|path| - 1], c.next.value.value;
      AntWalk(rule, dest, prm, tau, path, k) ==
      AntWalk(rule, dest, prm, tau[(current, v) := Blend(TauOr(tau, (current, v), prm.tau0), prm.tau0, prm.phi)],
              path + [v], c.cursor)
  {
    assert AntWalk(rule, dest, prm, tau, path, k) == AntMove(rule, dest, prm, tau, path, k);
  }

  /** AntWalkStep for the Ant Colony System rule, given its decision. */
  lemma AcsWalkStep(g: Graph, negLn: NegLog, w: Weights, prm: AcsParams, draws: Draws, dest: int,
                    tau: map<Edge, real>, path: seq<int>, k: nat, c: Choice)
    requires 0 < |path| <= prm.maxSteps && path[|path| - 1] != dest
    requires c == TransitionRule(g, negLn, tau, w, path[|path| - 1], Elems(path), prm, draws, k)
    ensures var walk := AntWalk(AcsRule(g, negLn, w, prm, draws), dest, prm, tau, path, k);
      && (c.next.Err? ==> walk == AntRun(Err(c.next.fault), tau, c.cursor))
      && (c.next == Ok(None) ==> walk == AntRun(Ok(None), tau, c.cursor))
      && (c.next.Ok? && c.next.value.Some? ==>
            var current, v := path[|path| - 1], c.next.value.value;
            walk == AntWalk(AcsRule(g, negLn, w, prm, draws), dest, prm,
                            tau[(current, v) := Blend(TauOr(tau, (current, v), prm.tau0), prm.tau0, prm.phi)],
                            path + [v], c.cursor))
  {
    var rule := AcsRule(g, negLn, w, prm, draws);
    assert rule(tau, path[|path| - 1], Elems(path), k) == c;
    AntWalkStep(rule, dest, prm, tau, path, k, c);
  }

  /** A rule that only ever picks an unvisited neighbour of the current node. */
  ghost predicate ChoosesNeighbors(g: Graph, rule: Rule) {
    forall t: map<Edge, real>, u: int, visited: set<int>, c: nat ::
      var next := rule(t, u, visited, c).next;
      next.Ok? && next.value.Some? ==> next.value.value in GetNeighbors(g, u) && next.value.value !in visited
  }

  /** An arrival of an ant run continuing `path`: a simple path along the
      adjacency, of at most max_steps nodes, that extends `path` and ends on
      `dest`. */
  ghost predicate Arrived(g: Graph, run: AntRun, path: seq<int>, maxSteps: nat, dest: int) {
    run.result.Ok? && run.result.value.Some? ==>
      var p := run.result.value.value;
      0 < |path| <= |p| <= maxSteps && p[..|path|] == path && p[|p| - 1] == dest && Distinct(p) && Along(g, p)
  }

  lemma ArrivedExtends(g: Graph, run: AntRun, path: seq<int>, v: int, maxSteps: nat, dest: int)
    requires path != [] && Arrived(g, run, path + [v], maxSteps, dest)
    ensures Arrived(g, run, path, maxSteps, dest)
  {
    if run.result.Ok? && run.result.value.Some? {
      var p := run.result.value.value;
      assert p[..|path|] == p[..|path| + 1][..|path|];
    }
  }

  /** Under a rule that picks unvisited neighbours, a walk from a simple
      path along the adjacency that arrives extends it to a simple path
      along the adjacency ending on `dest`, of at most max_steps nodes. */
  lemma {:induction false} AntWalkArrives(g: Graph, rule: Rule, dest: int, prm: AcsParams, tau: map<Edge, real>,
                                          path: seq<int>, k: nat)
    requires ChoosesNeighbors(g, rule)
    requires path != [] && AntPath(g, path[0], path[|path| - 1], path)
    ensures Arrived(g, AntWalk(rule, dest, prm, tau, path, k), path, prm.maxSteps, dest)
    decreases prm.maxSteps + 1 - |path|
  {
    var current := path[|path| - 1];
    if |path| <= prm.maxSteps && current != dest {
      var c := rule(tau, current, Elems(path), k);
      AntWalkStep(rule, dest, prm, tau, path, k, c);
      if c.next.Ok? && c.next.value.Some? {
        var v := c.next.value.value;
        AntPathStep(g, path[0], path, v);
        var tau' := tau[(current, v) := Blend(TauOr(tau, (current, v), prm.tau0), prm.tau0, prm.phi)];
        AntWalkArrives(g, rule, dest, prm, tau', path + [v], c.cursor);
        ArrivedExtends(g, AntWalk(rule, dest, prm, tau', path + [v], c.cursor), path, v, prm.maxSteps, dest);
      }
    } else if |path| <= prm.maxSteps {
      assert path[..|path|] == path;
    }
  }

  /** The Ant Colony System rule picks unvisited neighbours. */
  lemma AcsRuleChoosesNeighbors(g: Graph, negLn: NegLog, w: Weights, prm: AcsParams, draws: Draws)
    ensures ChoosesNeighbors(g, AcsRule(g, negLn, w, prm, draws))
  {
    var rule := AcsRule(g, negLn, w, prm, draws);
    forall t: map<Edge, real>, u: int, visited: set<int>, c: nat
      ensures var next := rule(t, u, visited, c).next;
        next.Ok? && next.value.Some? ==> next.value.value in GetNeighbors(g, u) && next.value.value !in visited
    {
      TransitionRuleChoosesUnvisitedNeighbor(g, negLn, t, w, u, visited, prm, draws, c);
    }
  }

  /** The rule answers None exactly when every neighbour is visited, and
      otherwise (unless a score raised) an unvisited neighbour; when it
      exploits, no unvisited neighbour scores higher. */
  lemma TransitionRuleChoosesUnvisitedNeighbor(g: Graph, negLn: NegLog, tau: map<Edge, real>, w: Weights, current: int,
                                               visited: set<int>, prm: AcsParams, draws: Draws, k: nat)
    ensures var c, ns := TransitionRule(g, negLn, tau, w, current, visited, prm, draws, k),
                         Unvisited(GetNeighbors(g, current), visited);
      && (c.next == Ok(None) <==> ns == [])
      && (c.next.Ok? && c.next.value.Some? ==>
            c.next.value.value in GetNeighbors(g, current) && c.next.value.value !in visited)
      && (c.next.Ok? && c.next.value.Some? && draws(k) < prm.q0 ==>
            forall v :: v in ns ==> (Score(g, negLn, tau, w, current, v, prm).Ok? &&
              Score(g, negLn, tau, w, current, v, prm).value <=
              Score(g, negLn, tau, w, current, c.next.value.value, prm).value))
  {
    var ns := Unvisited(GetNeighbors(g, current), visited);
    FilterMembers(GetNeighbors(g, current), NotIn(visited));
    var c := TransitionRule(g, negLn, tau, w, current, visited, prm, draws, k);
    if ns != [] && ScoreAll(g, negLn, tau, w, current, ns, prm).Ok? {
      var scores := ScoreAll(g, negLn, tau, w, current, ns, prm).value;
      if draws(k) < prm.q0 {
        var i := FirstMax(scores);
        assert ns[i] in ns;
        forall v | v in ns ensures Score(g, negLn, tau, w, current, v, prm).Ok? &&
            Score(g, negLn, tau, w, current, v, prm).value <= scores[i] {
          var j :| 0 <= j < |ns| && ns[j] == v;
        }
      } else {
        assert ns[RouletteIndex(scores, Spin(draws(k + 1), scores), 0)] in ns;
      }
    }
  }

  /** `after` differs from `before` only on `edges`: it has the keys of
      `before` and of `edges`, and every other entry is unchanged. */
  ghost predicate TouchedOnly(before: map<Edge, real>, after: map<Edge, real>, edges: set<Edge>) {
    && (forall e :: e in after <==> e in before || e in edges)
    && (forall e :: e in before && e !in edges ==> after[e] == before[e])
  }

  lemma TouchedOnlyStep(start: map<Edge, real>, tau: map<Edge, real>, path: seq<int>, x: int, value: real)
    requires |path| >= 1 && TouchedOnly(start, tau, Edges(path))
    ensures TouchedOnly(start, tau[(path[|path| - 1], x) := value], Edges(path + [x]))
  {
    EdgesAppend(path, x);
  }

  lemma {:induction false} ScoreAllPrefixFails(g: Graph, negLn: NegLog, tau: map<Edge, real>, w: Weights, current: int,
                                              ns: seq<int>, i: nat, prm: AcsParams)
    requires 0 < i <= |ns|
    requires ScoreAll(g, negLn, tau, w, current, ns[..i - 1], prm).Ok?
    requires Score(g, negLn, tau, w, current, ns[i - 1], prm).Err?
    ensures ScoreAll(g, negLn, tau, w, current, ns, prm) == Err(Score(g, negLn, tau, w, current, ns[i - 1], prm).fault)
    decreases |ns|
  {
    if i == |ns| {
      assert ns[..|ns| - 1] == ns[..i - 1];
    } else {
      var ns' := ns[..|ns| - 1];
      assert ns'[..i - 1] == ns[..i - 1];
      ScoreAllPrefixFails(g, negLn, tau, w, current, ns', i, prm);
    }
  }

  lemma AlongAppend(g: Graph, path: seq<int>, x: int)
    requires |path| >= 1 && Along(g, path) && x in GetNeighbors(g, path[|path| - 1])
    ensures Along(g, path + [x])
  {
    var p := path + [x];
    forall i | 0 <= i < |p| - 1 ensures AlongAt(g, p, i) {
      if i < |path| - 1 {
        assert p[i] == path[i] && p[i + 1] == path[i + 1];
        assert AlongAt(g, path, i);
      }
    }
  }

  /** The path an ant has walked: from the source to `current`, no node
      twice, every hop along an adjacency entry. */
  predicate AntPath(g: Graph, source: int, current: int, path: seq<int>) {
    |path| >= 1 && path[0] == source && path[|path| - 1] == current && Distinct(path) && Along(g, path)
  }

  lemma AntPathStep(g: Graph, source: int, path: seq<int>, x: int)
    requires |path| >= 1 && AntPath(g, source, path[|path| - 1], path)
    requires x in GetNeighbors(g, path[|path| - 1]) && x !in Elems(path)
    ensures AntPath(g, source, x, path + [x]) && Elems(path + [x]) == Elems(path) + {x}
  {
    AlongAppend(g, path, x);
    DistinctAppend(path, x);
  }

  lemma DistinctAppend(path: seq<int>, x: int)
    requires Distinct(path) && x !in Elems(path)
    ensures Distinct(path + [x])
  {
  }

  // ---------------------------------------------------------------- run_aco

  datatype AcoOutcome = NoPath | Best(path: seq<int>, metrics: Metrics, cost: real)

  /** An ant that reached the destination, with evaluate_path's metrics and cost. */
  datatype Arrival = Arrival(path: seq<int>, metrics: Metrics, cost: real)

  /** The arrivals collected so far, or the exception that ended the run;
      the pheromone table; and the index of the next unused draw. */
  datatype Swarm = Swarm(arrivals: Result<seq<Arrival>>, tau: map<Edge, real>, cursor: nat)

  /** The initial table of _init_pheromone: tau0 on every adjacency edge. */
  function InitialTau(g: Graph, tau0: real): map<Edge, real> {
    map u, v | u in g.vertices && v in GetNeighbors(g, u) :: (u, v) := tau0
  }

  /** The global evaporation: every entry scaled by (1 - rho). */
  function Evaporated(tau: map<Edge, real>, rho: real): map<Edge, real> {
    map e | e in tau :: tau[e] * (1.0 - rho)
  }

  /** The first arrival of least cost: `<` keeps the earliest on ties. */
  function Cheapest(xs: seq<Arrival>): (i: nat)
    requires xs != []
    ensures i < |xs|
    ensures forall j :: 0 <= j < |xs| ==> xs[i].cost <= xs[j].cost
    ensures forall j :: 0 <= j < i ==> xs[j].cost > xs[i].cost
    decreases |xs|
  {
    if |xs| == 1 then 0
    else
      var i := Cheapest(xs[..|xs| - 1]);
      if xs[|xs| - 1].cost < xs[i].cost then |xs| - 1 else i
  }

  /** Appending an arrival moves the cheapest to it exactly when it is
      strictly cheaper, which is how run_aco's running bests are updated. */
  lemma CheapestAppend(xs: seq<Arrival>, a: Arrival)
    ensures var ys := xs + [a];
      Cheapest(ys) == if xs == [] || a.cost < xs[Cheapest(xs)].cost then |xs| else Cheapest(xs)
  {
    assert (xs + [a])[..|xs|] == xs;
  }

  /** Ants number `ant` to num_ants - 1 of a round, each walking from
      `source` on the table the previous one left; those that reach `dest` are evaluated and
      appended to `arrivals`, and an exception ends the round. */
  function Ants(rule: Rule, g: Graph, negLn: NegLog, w: Weights, source: int, dest: int, prm: AcsParams,
                tau: map<Edge, real>, k: nat, ant: nat, arrivals: seq<Arrival>): Swarm
    decreases prm.numAnts - ant
  {
    if ant >= prm.numAnts then Swarm(Ok(arrivals), tau, k)
    else
      var run := AntWalk(rule, dest, prm, tau, [source], k);
      match run.result
      case Err(f) => Swarm(Err(f), run.tau, run.cursor)
      case Ok(None) => Ants(rule, g, negLn, w, source, dest, prm, run.tau, run.cursor, ant + 1, arrivals)
      case Ok(Some(p)) =>
        match AcoMetrics(g, negLn, p)
        case Err(f) => Swarm(Err(f), run.tau, run.cursor)
        case Ok(m) =>
          Ants(rule, g, negLn, w, source, dest, prm, run.tau, run.cursor, ant + 1, arrivals + [Arrival(p, m, Combine(w, m))])
  }

  /** One ant of a round, given its walk. */
  lemma AntsStep(rule: Rule, g: Graph, negLn: NegLog, w: Weights, source: int, dest: int, prm: AcsParams,
                 tau: map<Edge, real>, k: nat, ant: nat, arrivals: seq<Arrival>, run: AntRun)
    requires ant < prm.numAnts && run == AntWalk(rule, dest, prm, tau, [source], k)
    ensures run.result.Err? ==>
      Ants(rule, g, negLn, w, source, dest, prm, tau, k, ant, arrivals) == Swarm(Err(run.result.fault), run.tau, run.cursor)
    ensures run.result == Ok(None) ==>
      Ants(rule, g, negLn, w, source, dest, prm, tau, k, ant, arrivals) ==
      Ants(rule, g, negLn, w, source, dest, prm, run.tau, run.cursor, ant + 1, arrivals)
    ensures run.result.Ok? && run.result.value.Some? && AcoMetrics(g, negLn, run.result.value.value).Err? ==>
      Ants(rule, g, negLn, w, source, dest, prm, tau, k, ant, arrivals) ==
      Swarm(Err(AcoMetrics(g, negLn, run.result.value.value).fault), run.tau, run.cursor)
    ensures run.result.Ok? && run.result.value.Some? && AcoMetrics(g, negLn, run.result.value.value).Ok? ==>
      var p := run.result.value.value;
      var m := AcoMetrics(g, negLn, p).value;
      Ants(rule, g, negLn, w, source, dest, prm, tau, k, ant, arrivals) ==
      Ants(rule, g, negLn, w, source, dest, prm, run.tau, run.cursor, ant + 1, arrivals + [Arrival(p, m, Combine(w, m))])
  {
  }

  /** The end of a round: evaporation, then, when some ant arrived, the
      deposit along the round's cheapest arrival. Where its cost plus 1e-9 is
      zero (the float64 division gives +inf) the model reports DivisionByZero. */
  function RoundEnd(tau: map<Edge, real>, arrivals: seq<Arrival>, rho: real): Result<map<Edge, real>> {
    var evaporated := Evaporated(tau, rho);
    if arrivals == [] then Ok(evaporated)
    else
      var best := arrivals[Cheapest(arrivals)];
      if best.cost + Epsilon == 0.0 then Err(DivisionByZero)
      else Ok(Deposited(evaporated, best.path, 1.0 / (best.cost + Epsilon), rho, Hops(best.path)))
  }

  /** Rounds number `it` to num_iters - 1: each round's arrivals are appended to
      `arrivals` and its end updates the table; an exception ends the run. */
  function Rounds(rule: Rule, g: Graph, negLn: NegLog, w: Weights, source: int, dest: int, prm: AcsParams,
                  tau: map<Edge, real>, k: nat, it: nat, arrivals: seq<Arrival>): Swarm
    decreases prm.numIters - it
  {
    if it >= prm.numIters then Swarm(Ok(arrivals), tau, k)
    else
      var s := Ants(rule, g, negLn, w, source, dest, prm, tau, k, 0, []);
      match s.arrivals
      case Err(_) => s
      case Ok(round) =>
        match RoundEnd(s.tau, round, prm.rho)
        case Err(f) => Swarm(Err(f), s.tau, s.cursor)
        case Ok(t) => Rounds(rule, g, negLn, w, source, dest, prm, t, s.cursor, it + 1, arrivals + round)
  }

  /** One round, given the outcome of its ants. */
  lemma RoundsStep(rule: Rule, g: Graph, negLn: NegLog, w: Weights, source: int, dest: int, prm: AcsParams,
                   tau: map<Edge, real>, k: nat, it: nat, arrivals: seq<Arrival>, s: Swarm)
    requires it < prm.numIters && s == Ants(rule, g, negLn, w, source, dest, prm, tau, k, 0, [])
    ensures s.arrivals.Err? ==> Rounds(rule, g, negLn, w, source, dest, prm, tau, k, it, arrivals) == s
    ensures s.arrivals.Ok? && RoundEnd(s.tau, s.arrivals.value, prm.rho).Err? ==>
      Rounds(rule, g, negLn, w, source, dest, prm, tau, k, it, arrivals) ==
      Swarm(Err(RoundEnd(s.tau, s.arrivals.value, prm.rho).fault), s.tau, s.cursor)
    ensures s.arrivals.Ok? && RoundEnd(s.tau, s.arrivals.value, prm.rho).Ok? ==>
      Rounds(rule, g, negLn, w, source, dest, prm, tau, k, it, arrivals) ==
      Rounds(rule, g, negLn, w, source, dest, prm, RoundEnd(s.tau, s.arrivals.value, prm.rho).value, s.cursor,
             it + 1, arrivals + s.arrivals.value)
  {
  }

  /** A round whose ants and end succeed hands its table, cursor and
      arrivals to the next round. */
  lemma RoundsContinue(rule: Rule, g: Graph, negLn: NegLog, w: Weights, source: int, dest: int, prm: AcsParams,
                       tau: map<Edge, real>, k: nat, it: nat, arrivals: seq<Arrival>,
                       round: seq<Arrival>, tauAnts: map<Edge, real>, kAnts: nat, t: map<Edge, real>)
    requires it < prm.numIters
    requires Ants(rule, g, negLn, w, source, dest, prm, tau, k, 0, []) == Swarm(Ok(round), tauAnts, kAnts)
    requires RoundEnd(tauAnts, round, prm.rho) == Ok(t)
    ensures Rounds(rule, g, negLn, w, source, dest, prm, tau, k, it, arrivals) ==
            Rounds(rule, g, negLn, w, source, dest, prm, t, kAnts, it + 1, arrivals + round)
  {
  }

  /** run_aco as a function of the draws: num_iters rounds from the initial table. */
  function AcoRun(g: Graph, negLn: NegLog, source: int, dest: int, w: Weights, prm: AcsParams, draws: Draws, k0: nat): Swarm {
    Rounds(AcsRule(g, negLn, w, prm, draws), g, negLn, w, source, dest, prm, InitialTau(g, prm.tau0), k0, 0, [])
  }

  /** run_aco's answer: the exception that ended the run; NoPath exactly when
      no ant arrived; otherwise the first arrival of least cost, so no
      arrival is cheaper. */
  function AcoAnswer(s: Swarm): (r: Result<AcoOutcome>)
    ensures r.Err? <==> s.arrivals.Err?
    ensures r.Err? ==> r.fault == s.arrivals.fault
    ensures r.Ok? ==> (r.value.NoPath? <==> s.arrivals.value == [])
    ensures r.Ok? && r.value.Best? ==>
      Arrival(r.value.path, r.value.metrics, r.value.cost) in s.arrivals.value &&
      forall a :: a in s.arrivals.value ==> r.value.cost <= a.cost
  {
    match s.arrivals
    case Err(f) => Err(f)
    case Ok(xs) =>
      if xs == [] then Ok(NoPath)
      else
        var best := xs[Cheapest(xs)];
        Ok(Best(best.path, best.metrics, best.cost))
  }

  /** An arrival as run_aco records it: a route from `source` to `dest` of
      at most max_steps nodes along the adjacency, with evaluate_path's
      metrics and cost. */
  ghost predicate GoodArrival(g: Graph, negLn: NegLog, w: Weights, source: int, dest: int, prm: AcsParams, a: Arrival) {
    Route(a.path, source, dest) && Along(g, a.path) && |a.path| <= prm.maxSteps &&
    AcoMetrics(g, negLn, a.path) == Ok(a.metrics) && a.cost == Combine(w, a.metrics)
  }

  ghost predicate AllGood(g: Graph, negLn: NegLog, w: Weights, source: int, dest: int, prm: AcsParams, xs: seq<Arrival>) {
    forall i :: 0 <= i < |xs| ==> GoodArrival(g, negLn, w, source, dest, prm, xs[i])
  }

  /** Under a rule that picks unvisited neighbours, the ants of a round only
      add good arrivals. */
  lemma {:induction false} AntsArrivalsGood(rule: Rule, g: Graph, negLn: NegLog, w: Weights, source: int, dest: int,
                                            prm: AcsParams, tau: map<Edge, real>, k: nat, ant: nat, arrivals: seq<Arrival>)
    requires ChoosesNeighbors(g, rule) && AllGood(g, negLn, w, source, dest, prm, arrivals)
    ensures var s := Ants(rule, g, negLn, w, source, dest, prm, tau, k, ant, arrivals);
      s.arrivals.Ok? ==> AllGood(g, negLn, w, source, dest, prm, s.arrivals.value)
    decreases prm.numAnts - ant
  {
    if ant < prm.numAnts {
      var run := AntWalk(rule, dest, prm, tau, [source], k);
      AntsStep(rule, g, negLn, w, source, dest, prm, tau, k, ant, arrivals, run);
      if run.result == Ok(None) {
        AntsArrivalsGood(rule, g, negLn, w, source, dest, prm, run.tau, run.cursor, ant + 1, arrivals);
      } else if run.result.Ok? {
        var p := run.result.value.value;
        if AcoMetrics(g, negLn, p).Ok? {
          var m := AcoMetrics(g, negLn, p).value;
          AntWalkArrives(g, rule, dest, prm, tau, [source], k);
          assert p[..1] == [source];
          var xs := arrivals + [Arrival(p, m, Combine(w, m))];
          assert GoodArrival(g, negLn, w, source, dest, prm, xs[|arrivals|]);
          assert AllGood(g, negLn, w, source, dest, prm, xs);
          AntsArrivalsGood(rule, g, negLn, w, source, dest, prm, run.tau, run.cursor, ant + 1, xs);
        }
      }
    }
  }

  /** Under a rule that picks unvisited neighbours, every arrival of the
      remaining rounds is good. */
  lemma {:induction false} RoundsArrivalsGood(rule: Rule, g: Graph, negLn: NegLog, w: Weights, source: int, dest: int,
                                              prm: AcsParams, tau: map<Edge, real>, k: nat, it: nat, arrivals: seq<Arrival>)
    requires ChoosesNeighbors(g, rule) && AllGood(g, negLn, w, source, dest, prm, arrivals)
    ensures var s := Rounds(rule, g, negLn, w, source, dest, prm, tau, k, it, arrivals);
      s.arrivals.Ok? ==> AllGood(g, negLn, w, source, dest, prm, s.arrivals.value)
    decreases prm.numIters - it
  {
    if it < prm.numIters {
      var s := Ants(rule, g, negLn, w, source, dest, prm, tau, k, 0, []);
      RoundsStep(rule, g, negLn, w, source, dest, prm, tau, k, it, arrivals, s);
      AntsArrivalsGood(rule, g, negLn, w, source, dest, prm, tau, k, 0, []);
      if s.arrivals.Ok? && RoundEnd(s.tau, s.arrivals.value, prm.rho).Ok? {
        var round := s.arrivals.value;
        assert AllGood(g, negLn, w, source, dest, prm, arrivals + round) by {
          forall i | 0 <= i < |arrivals + round|
            ensures GoodArrival(g, negLn, w, source, dest, prm, (arrivals + round)[i])
          {
            if i >= |arrivals| {
              assert (arrivals + round)[i] == round[i - |arrivals|];
            }
          }
        }
        RoundsArrivalsGood(rule, g, negLn, w, source, dest, prm, RoundEnd(s.tau, round, prm.rho).value, s.cursor,
                           it + 1, arrivals + round);
      }
    }
  }

  /** Every arrival of a run of run_aco is a good one. */
  lemma AcoRunArrivalsGood(g: Graph, negLn: NegLog, source: int, dest: int, w: Weights, prm: AcsParams, draws: Draws, k0: nat)
    ensures var s := AcoRun(g, negLn, source, dest, w, prm, draws, k0);
      s.arrivals.Ok? ==> forall a :: a in s.arrivals.value ==> GoodArrival(g, negLn, w, source, dest, prm, a)
  {
    var rule := AcsRule(g, negLn, w, prm, draws);
    AcsRuleChoosesNeighbors(g, negLn, w, prm, draws);
    RoundsArrivalsGood(rule, g, negLn, w, source, dest, prm, InitialTau(g, prm.tau0), k0, 0, []);
  }

  /** What run_aco's global best holds after the given arrivals: none before
      the first arrival, then the cheapest arrival. */
  ghost predicate BestSoFar(bestPath: Option<seq<int>>, bestCost: Cost, bestMetrics: Metrics, arrivals: seq<Arrival>) {
    && (bestPath.None? <==> arrivals == [])
    && (bestPath.None? <==> bestCost.Inf?)
    && (bestPath.Some? ==>
          var a := arrivals[Cheapest(arrivals)];
          bestPath.value == a.path && bestMetrics == a.metrics && bestCost == Fin(a.cost))
  }

  /** What a round's best holds after the round's arrivals so far. */
  ghost predicate RoundBest(bestPath: Option<seq<int>>, bestCost: Cost, round: seq<Arrival>) {
    && (bestPath.None? <==> round == [])
    && (bestPath.None? <==> bestCost.Inf?)
    && (bestPath.Some? ==> bestPath.value == round[Cheapest(round)].path && bestCost == Fin(round[Cheapest(round)].cost))
  }

  lemma AppendLast(xs: seq<Arrival>, ys: seq<Arrival>, a: Arrival)
    ensures (xs + ys) + [a] == xs + (ys + [a])
  {
  }

  /** An arrival updates the global best exactly when it is strictly cheaper. */
  lemma BestSoFarAppend(bestPath: Option<seq<int>>, bestCost: Cost, bestMetrics: Metrics, xs: seq<Arrival>, a: Arrival)
    requires BestSoFar(bestPath, bestCost, bestMetrics, xs)
    ensures if Less(Fin(a.cost), bestCost) then BestSoFar(Some(a.path), Fin(a.cost), a.metrics, xs + [a])
            else BestSoFar(bestPath, bestCost, bestMetrics, xs + [a])
  {
    CheapestAppend(xs, a);
    assert (xs + [a])[|xs|] == a;
    if xs != [] {
      assert (xs + [a])[Cheapest(xs)] == xs[Cheapest(xs)];
    }
  }

  /** An arrival updates the round's best exactly when it is strictly cheaper. */
  lemma RoundBestAppend(bestPath: Option<seq<int>>, bestCost: Cost, xs: seq<Arrival>, a: Arrival)
    requires RoundBest(bestPath, bestCost, xs)
    ensures if Less(Fin(a.cost), bestCost) then RoundBest(Some(a.path), Fin(a.cost), xs + [a])
            else RoundBest(bestPath, bestCost, xs + [a])
  {
    CheapestAppend(xs, a);
    assert (xs + [a])[|xs|] == a;
    if xs != [] {
      assert (xs + [a])[Cheapest(xs)] == xs[Cheapest(xs)];
    }
  }

  /** The end of a round as run_aco performs it from the round's best:
      evaporation alone when no ant arrived, otherwise the deposit along the
      best path (with the model's DivisionByZero where the float64 division
      gives +inf). */
  lemma RoundEndFromBest(tau: map<Edge, real>, round: seq<Arrival>, rho: real, iterBestPath: Option<seq<int>>, iterBestCost: Cost)
    requires RoundBest(iterBestPath, iterBestCost, round)
    ensures iterBestPath.None? ==> RoundEnd(tau, round, rho) == Ok(Evaporated(tau, rho))
    ensures iterBestPath.Some? && iterBestCost.amount + Epsilon == 0.0 ==> RoundEnd(tau, round, rho) == Err(DivisionByZero)
    ensures iterBestPath.Some? && iterBestCost.amount + Epsilon != 0.0 ==>
      RoundEnd(tau, round, rho) ==
      Ok(Deposited(Evaporated(tau, rho), iterBestPath.value, 1.0 / (iterBestCost.amount + Epsilon), rho, Hops(iterBestPath.value)))
  {
  }

  /** The ants of one iteration of run_aco: each ant builds a path on the
      shared table; an arrival is evaluated and updates both the iteration's
      best and the global best when it is strictly cheaper. The run agrees
      with Ants from the table and cursor it started with, and the bests are
      the cheapest arrivals, first on ties. */
  method RunAnts(table: PheromoneTable, g: Graph, negLn: NegLog, source: int, dest: int, w: Weights, prm: AcsParams,
                 draws: Draws, k0: nat, ghost all: seq<Arrival>,
                 bestPath0: Option<seq<int>>, bestCost0: Cost, bestMetrics0: Metrics)
    returns (st: Status, k: nat, iterBestPath: Option<seq<int>>, iterBestCost: Cost,
             bestPath: Option<seq<int>>, bestCost: Cost, bestMetrics: Metrics, ghost round: seq<Arrival>)
    modifies table
    requires BestSoFar(bestPath0, bestCost0, bestMetrics0, all)
    ensures Ants(AcsRule(g, negLn, w, prm, draws), g, negLn, w, source, dest, prm, old(table.tau), k0, 0, []) ==
            Swarm(if st.Failed? then Err(st.fault) else Ok(round), table.tau, k)
    ensures st.Done? ==> RoundBest(iterBestPath, iterBestCost, round)
    ensures st.Done? ==> BestSoFar(bestPath, bestCost, bestMetrics, all + round)
  {
    ghost var rule := AcsRule(g, negLn, w, prm, draws);
    ghost var spec := Ants(rule, g, negLn, w, source, dest, prm, table.tau, k0, 0, []);
    bestPath, bestCost, bestMetrics := bestPath0, bestCost0, bestMetrics0;
    iterBestPath, iterBestCost := None, Inf;
    round := [];
    ghost var seen := all;
    k := k0;
    for ant := 0 to prm.numAnts
      invariant spec == Ants(rule, g, negLn, w, source, dest, prm, table.tau, k, ant, round)
      invariant seen == all + round
      invariant BestSoFar(bestPath, bestCost, bestMetrics, seen)
      invariant RoundBest(iterBestPath, iterBestCost, round)
    {
      ghost var tauAnt, kAnt := table.tau, k;
      var built, k1, walk := table.BuildAntPath(g, negLn, w, source, dest, prm, draws, k);
      k := k1;
      AntsStep(rule, g, negLn, w, source, dest, prm, tauAnt, kAnt, ant, round, AntRun(built, table.tau, k1));
      if built.Err? {
        return Failed(built.fault), k, iterBestPath, iterBestCost, bestPath, bestCost, bestMetrics, round;
      }
      if built.value.Some? {
        var path := built.value.value;
        var eval := EvaluatePath(g, negLn, path, w);
        if eval.Err? {
          return Failed(eval.fault), k, iterBestPath, iterBestCost, bestPath, bestCost, bestMetrics, round;
        }
        var c := eval.value.cost;
        ghost var a := Arrival(path, eval.value.metrics, c);
        RoundBestAppend(iterBestPath, iterBestCost, round, a);
        BestSoFarAppend(bestPath, bestCost, bestMetrics, seen, a);
        AppendLast(all, round, a);
        round, seen := round + [a], seen + [a];
        if Less(Fin(c), iterBestCost) {
          iterBestCost, iterBestPath := Fin(c), Some(path);
        }
        if Less(Fin(c), bestCost) {
          bestCost, bestPath, bestMetrics := Fin(c), Some(path), eval.value.metrics;
        }
      }
    }
    st := Done;
  }

  /** run_aco: num_iters rounds of num_ants ants over one pheromone table;
      after each round the table evaporates and the round's best path is
      reinforced. The result is AcoAnswer of AcoRun: the cheapest of all
      arrivals (ties keep the earliest) or NoPath, and an exception in any
      step propagates. */
  method RunAco(g: Graph, negLn: NegLog, source: int, dest: int, w: Weights, prm: AcsParams, draws: Draws, k0: nat)
    returns (r: Result<AcoOutcome>, k: nat)
    ensures r == AcoAnswer(AcoRun(g, negLn, source, dest, w, prm, draws, k0))
    ensures k == AcoRun(g, negLn, source, dest, w, prm, draws, k0).cursor
    ensures r.Ok? && r.value.Best? ==>
      var b := r.value;
      Route(b.path, source, dest) && Along(g, b.path) && |b.path| <= prm.maxSteps &&
      AcoMetrics(g, negLn, b.path) == Ok(b.metrics) && b.cost == Combine(w, b.metrics)
  {
    ghost var rule := AcsRule(g, negLn, w, prm, draws);
    ghost var spec := AcoRun(g, negLn, source, dest, w, prm, draws, k0);
    var table := new PheromoneTable.Init(g, prm.tau0);
    var bestPath: Option<seq<int>> := None;
    var bestCost: Cost := Inf;
    var bestMetrics := NoCost;
    ghost var all: seq<Arrival> := [];
    k := k0;
    for it := 0 to prm.numIters
      invariant spec == Rounds(rule, g, negLn, w, source, dest, prm, table.tau, k, it, all)
      invariant BestSoFar(bestPath, bestCost, bestMetrics, all)
    {
      ghost var tauStart, kStart := table.tau, k;
      var st, iterBestPath, iterBestCost;
      ghost var round;
      st, k, iterBestPath, iterBestCost, bestPath, bestCost, bestMetrics, round :=
        RunAnts(table, g, negLn, source, dest, w, prm, draws, k, all, bestPath, bestCost, bestMetrics);
      ghost var ants := Ants(rule, g, negLn, w, source, dest, prm, tauStart, kStart, 0, []);
      RoundsStep(rule, g, negLn, w, source, dest, prm, tauStart, kStart, it, all, ants);
      if st.Failed? {
        return Err(st.fault), k;
      }
      ghost var tauAnts := table.tau;
      RoundEndFromBest(tauAnts, round, prm.rho, iterBestPath, iterBestCost);
      table.Evaporate(prm.rho);
      ghost var evaporated := table.tau;
      assert evaporated == Evaporated(tauAnts, prm.rho);
      if iterBestPath.Some? {
        var dep := table.DepositBest(iterBestPath.value, iterBestCost.amount, prm.rho);
        if dep.Failed? {
          return Err(dep.fault), k;
        }
        assert table.tau == Deposited(evaporated, iterBestPath.value, 1.0 / (iterBestCost.amount + Epsilon), prm.rho,
                                      Hops(iterBestPath.value));
      }
      RoundsContinue(rule, g, negLn, w, source, dest, prm, tauStart, kStart, it, all, round, tauAnts, k, table.tau);
      all := all + round;
    }
    AcoRunArrivalsGood(g, negLn, source, dest, w, prm, draws, k0);
    if bestPath.None? {
      return Ok(NoPath), k;
    }
    return Ok(Best(bestPath.value, bestMetrics, bestCost.amount)), k;
  }
}
