/** The genetic-algorithm router: random admissible walks seed a population of
    candidate paths, which is ranked by weighted cost, kept elitist, and
    refilled by crossover and mutation. Random choices come from an injected
    stream of draws; each result holds for every such stream. */
module Genetic {
  import opened Common
  import opened Network

  /** GeneticAlgorithmRouter's configuration. */
  datatype Router = Router(
    source: int,
    target: int,
    demand: real,
    weights: Weights,
    populationSize: nat,
    generations: nat,
    mutationRate: real)

  const DefaultWeights := Weights(0.33, 0.33, 0.34)
  const EliteCount: nat := 5
  const ParentPool: nat := 20

  /** The constructor: the weights given, or the default weights when none
      (or an empty dict) are given; 50 individuals, 100 generations, rate 0.2. */
  function NewRouter(source: int, target: int, demand: real, weights: Option<Weights>): (r: Router)
    ensures r.source == source && r.target == target && r.demand == demand
    ensures weights.None? ==> r.weights.delay + r.weights.reliability + r.weights.resource == 1.0
    ensures weights.Some? ==> r.weights == weights.value
    ensures r.populationSize == 50 && r.generations == 100 && r.mutationRate == 0.2
  {
    Router(source, target, demand, if weights.Some? then weights.value else DefaultWeights, 50, 100, 0.2)
  }

  /** What every individual of the population is: a simple path from the
      router's source to its target whose every hop carries the demand. */
  predicate Candidate(rt: Router, g: Graph, p: seq<int>) {
    Route(p, rt.source, rt.target) && AdmissiblePath(g, p, rt.demand)
  }

  // ---------------------------------------------------------------- random walk

  /** The successors find_random_path may take from `curr`: the adjacency
      entries, in order, not yet visited and whose link carries the demand. */
  function ValidNeighbors(g: Graph, curr: int, visited: set<int>, demand: real): (vs: seq<int>)
    ensures forall v :: v in vs <==> v in GetNeighbors(g, curr) && v !in visited && Admissible(g, curr, v, demand)
  {
    FilterMembers(GetNeighbors(g, curr), v => v !in visited && Admissible(g, curr, v, demand));
    Filter(GetNeighbors(g, curr), v => v !in visited && Admissible(g, curr, v, demand))
  }

  /** Every node an adjacency entry points to. */
  ghost function Targets(g: Graph): set<int> {
    set u, e | u in g.adj && e in g.adj[u] :: e.neighbor
  }

  lemma NeighborIsTarget(g: Graph, u: int, v: int)
    requires v in GetNeighbors(g, u)
    ensures v in Targets(g)
  {
    var ns := GetNeighbors(g, u);
    var i :| 0 <= i < |ns| && ns[i] == v;
    assert u in g.adj;
    assert g.adj[u][i] in g.adj[u];
  }

  /** A walk from `start`: no node twice, every hop admissible. */
  predicate Walk(g: Graph, start: int, demand: real, walk: seq<int>) {
    |walk| >= 1 && walk[0] == start && Distinct(walk) && AdmissiblePath(g, walk, demand)
  }

  /** The walk has not reached the target and has no valid successor. */
  predicate Stuck(g: Graph, target: int, demand: real, walk: seq<int>) {
    |walk| >= 1 && walk[|walk| - 1] != target &&
    ValidNeighbors(g, walk[|walk| - 1], Elems(walk), demand) == []
  }

  /** Appending an admissible hop keeps a path admissible. */
  lemma AdmissibleAppend(g: Graph, path: seq<int>, x: int, demand: real)
    requires |path| >= 1 && AdmissiblePath(g, path, demand) && Admissible(g, path[|path| - 1], x, demand)
    ensures AdmissiblePath(g, path + [x], demand)
  {
    var p := path + [x];
    forall i | 0 <= i < |p| - 1 ensures AdmissibleAt(g, p, i, demand) {
      if i < |path| - 1 {
        assert p[i] == path[i] && p[i + 1] == path[i + 1];
        assert AdmissibleAt(g, path, i, demand);
      }
    }
  }

  /** Taking a valid successor extends a walk and visits a node of `universe`
      not visited before. */
  lemma WalkStep(g: Graph, start: int, demand: real, walk: seq<int>, next: int, universe: set<int>)
    requires Walk(g, start, demand, walk) && Elems(walk) <= universe && Targets(g) <= universe
    requires next in GetNeighbors(g, walk[|walk| - 1]) && next !in Elems(walk)
    requires Admissible(g, walk[|walk| - 1], next, demand)
    ensures Walk(g, start, demand, walk + [next]) && Elems(walk + [next]) <= universe
    ensures Elems(walk + [next]) == Elems(walk) + {next}
    ensures |universe - Elems(walk + [next])| < |universe - Elems(walk)|
  {
    var walk' := walk + [next];
    NeighborIsTarget(g, walk[|walk| - 1], next);
    assert Elems(walk') == Elems(walk) + {next};
    assert universe - Elems(walk') < universe - Elems(walk) by {
      assert next in universe - Elems(walk);
    }
    AdmissibleAppend(g, walk, next, demand);
    assert Distinct(walk') by {
      assert next !in walk;
    }
  }

  /** A frame of the search: the current node, the path to it, and its nodes. */
  datatype Frame = Frame(curr: int, path: seq<int>, visited: set<int>)

  /** The frame that ends a walk. */
  function Tip(walk: seq<int>): Frame
    requires |walk| >= 1
  {
    Frame(walk[|walk| - 1], walk, Elems(walk))
  }

  /** A walk whose nodes lie in `universe`, which holds every node an edge
      points to (so the walk can only grow within it). */
  ghost predicate Explored(g: Graph, start: int, demand: real, universe: set<int>, walk: seq<int>) {
    Walk(g, start, demand, walk) && Elems(walk) <= universe && Targets(g) <= universe
  }

  /** The loop invariant of find_random_path: `walk` is the path of the last
      frame taken, the frontier is empty or holds just that frame, and an empty
      frontier means the walk got stuck. */
  ghost predicate Search(g: Graph, start: int, target: int, demand: real, universe: set<int>,
                         stack: seq<Frame>, walk: seq<int>)
  {
    Explored(g, start, demand, universe, walk) &&
    (stack == [] ==> Stuck(g, target, demand, walk)) &&
    (stack != [] ==> stack == [Tip(walk)])
  }

  /** Pushing a valid successor of the walk's tip keeps the invariant and
      visits a node of `universe` not visited before. */
  lemma SearchStep(g: Graph, start: int, target: int, demand: real, universe: set<int>,
                   walk: seq<int>, next: int)
    requires Explored(g, start, demand, universe, walk)
    requires next in ValidNeighbors(g, walk[|walk| - 1], Elems(walk), demand)
    ensures Search(g, start, target, demand, universe, [Frame(next, walk + [next], Elems(walk) + {next})], walk + [next])
    ensures |universe - Elems(walk + [next])| < |universe - Elems(walk)|
  {
    WalkStep(g, start, demand, walk, next, universe);
  }

  /** The outcome of a random walk and the index of the next unused draw. */
  datatype Walked = Walked(result: Option<seq<int>>, cursor: nat)

  /** find_random_path as a function of the draws, continuing `walk` with
      draw k: each round pops the single frame (one draw), answers the walk
      when its tip is the target, stops when the tip has no valid successor,
      and otherwise steps to the successor a second draw picks. */
  ghost function RandomWalk(g: Graph, target: int, demand: real, draws: Draws, walk: seq<int>, k: nat): Walked
    requires UnitDraws(draws)
    requires walk != [] && Explored(g, walk[0], demand, Targets(g) + {walk[0]}, walk)
    decreases |Targets(g) + {walk[0]} - Elems(walk)|, 1
  {
    if walk[|walk| - 1] == target then Walked(Some(walk), k + 1)
    else RandomStep(g, target, demand, draws, walk, k + 1)
  }

  /** A round of the walk away from the target, after the frame's draw. */
  ghost function RandomStep(g: Graph, target: int, demand: real, draws: Draws, walk: seq<int>, k: nat): Walked
    requires UnitDraws(draws)
    requires walk != [] && Explored(g, walk[0], demand, Targets(g) + {walk[0]}, walk)
    decreases |Targets(g) + {walk[0]} - Elems(walk)|, 0
  {
    var valid := ValidNeighbors(g, walk[|walk| - 1], Elems(walk), demand);
    if valid == [] then Walked(None, k)
    else
      var next := valid[Pick(draws(k), |valid|)];
      SearchStep(g, walk[0], target, demand, Targets(g) + {walk[0]}, walk, next);
      RandomWalk(g, target, demand, draws, walk + [next], k + 1)
  }

  /** find_random_path(start) as a function of the draws. */
  ghost function RandomPath(g: Graph, start: int, target: int, demand: real, draws: Draws, k: nat): Walked
    requires UnitDraws(draws)
  {
    assert Elems([start]) == {start};
    RandomWalk(g, target, demand, draws, [start], k)
  }

  /** One round of a random walk: the answer at the target, the stop with no
      valid successor, or the walk continued with the successor drawn. */
  lemma RandomWalkStep(g: Graph, target: int, demand: real, draws: Draws, walk: seq<int>, k: nat)
    requires UnitDraws(draws)
    requires walk != [] && Explored(g, walk[0], demand, Targets(g) + {walk[0]}, walk)
    ensures var tip := walk[|walk| - 1];
      tip == target ==> RandomWalk(g, target, demand, draws, walk, k) == Walked(Some(walk), k + 1)
    ensures var tip := walk[|walk| - 1];
      tip != target && ValidNeighbors(g, tip, Elems(walk), demand) == [] ==>
        RandomWalk(g, target, demand, draws, walk, k) == Walked(None, k + 1)
    ensures var tip := walk[|walk| - 1];
      var valid := ValidNeighbors(g, tip, Elems(walk), demand);
      tip != target && valid != [] ==>
        var next := valid[Pick(draws(k + 1), |valid|)];
        (walk + [next])[0] == walk[0] &&
        Explored(g, walk[0], demand, Targets(g) + {walk[0]}, walk + [next]) &&
        |Targets(g) + {walk[0]} - Elems(walk + [next])| < |Targets(g) + {walk[0]} - Elems(walk)| &&
        RandomWalk(g, target, demand, draws, walk, k) == RandomWalk(g, target, demand, draws, walk + [next], k + 1 + 1)
  {
    var tip := walk[|walk| - 1];
    var valid := ValidNeighbors(g, tip, Elems(walk), demand);
    if tip != target && valid != [] {
      SearchStep(g, walk[0], target, demand, Targets(g) + {walk[0]}, walk, valid[Pick(draws(k + 1), |valid|)]);
    }
  }

  /** A random walk that answers reaches the target along admissible hops,
      extends the walk it continued, and repeats no node. */
  lemma {:induction false} RandomWalkArrives(g: Graph, target: int, demand: real, draws: Draws, walk: seq<int>, k: nat)
    requires UnitDraws(draws)
    requires walk != [] && Explored(g, walk[0], demand, Targets(g) + {walk[0]}, walk)
    ensures var w := RandomWalk(g, target, demand, draws, walk, k);
      w.result.Some? ==> Route(w.result.value, walk[0], target) && AdmissiblePath(g, w.result.value, demand) &&
                         |walk| <= |w.result.value| && w.result.value[..|walk|] == walk
    decreases |Targets(g) + {walk[0]} - Elems(walk)|
  {
    var tip := walk[|walk| - 1];
    RandomWalkStep(g, target, demand, draws, walk, k);
    if tip != target {
      var valid := ValidNeighbors(g, tip, Elems(walk), demand);
      if valid != [] {
        var next := valid[Pick(draws(k + 1), |valid|)];
        var walk' := walk + [next];
        RandomWalkArrives(g, target, demand, draws, walk', k + 1 + 1);
        var w := RandomWalk(g, target, demand, draws, walk', k + 1 + 1);
        if w.result.Some? {
          var p := w.result.value;
          assert Route(p, walk'[0], target) && AdmissiblePath(g, p, demand);
          PrefixOfPrefix(p, |walk|, |walk'|);
        }
      }
    } else {
      assert walk[..|walk|] == walk;
    }
  }

  /** One step of find_random_path from a popped frame: a uniformly drawn valid
      successor, or None when there is none (no draw is consumed then). */
  method ChooseSuccessor(g: Graph, frame: Frame, demand: real, draws: Draws, k0: nat)
    returns (choice: Option<int>, k: nat)
    requires UnitDraws(draws)
    ensures choice.Some? ==> choice.value in ValidNeighbors(g, frame.curr, frame.visited, demand) && k == k0 + 1
    ensures choice.None? ==> ValidNeighbors(g, frame.curr, frame.visited, demand) == [] && k == k0
    ensures var valid := ValidNeighbors(g, frame.curr, frame.visited, demand);
      valid != [] ==> choice == Some(valid[Pick(draws(k0), |valid|)])
  {
    var valid := ValidNeighbors(g, frame.curr, frame.visited, demand);
    if valid != [] {
      choice, k := Some(valid[Pick(draws(k0), |valid|)]), k0 + 1;
    } else {
      choice, k := None, k0;
    }
  }

  /** Popping from a one-frame frontier empties it. */
  lemma PopOnly(stack: seq<Frame>, i: nat)
    requires |stack| == 1 && i < 1
    ensures stack[i] == stack[0] && stack[..i] + stack[i + 1..] == []
  {
  }

  /** find_random_path: pop a random frame (the frontier never holds more than
      one), stop at the target, otherwise push one random valid successor.
      The ghost `walk` is the path of the last frame popped: the result is that
      walk when it reaches the target, and None means the walk got stuck. */
  method FindRandomPath(g: Graph, start: int, target: int, demand: real, draws: Draws, k0: nat)
    returns (r: Option<seq<int>>, k: nat, ghost walk: seq<int>)
    requires UnitDraws(draws)
    ensures r.Some? ==> Route(r.value, start, target) && AdmissiblePath(g, r.value, demand)
    ensures Walk(g, start, demand, walk)
    ensures r.Some? ==> r.value == walk && Route(walk, start, target)
    ensures r.None? ==> Stuck(g, target, demand, walk)
    ensures RandomPath(g, start, target, demand, draws, k0) == Walked(r, k)
  {
    ghost var spec := RandomPath(g, start, target, demand, draws, k0);
    var stack := [Frame(start, [start], {start})];
    k := k0;
    walk := [start];
    ghost var universe := Targets(g) + {start};
    assert Elems(walk) == {start};
    while stack != []
      invariant Search(g, start, target, demand, universe, stack, walk)
      invariant stack != [] ==> spec == RandomWalk(g, target, demand, draws, walk, k)
      invariant stack == [] ==> spec == Walked(None, k)
      decreases |universe - Elems(walk)|, |stack|
    {
      RandomWalkStep(g, target, demand, draws, walk, k);
      var idx := Pick(draws(k), |stack|);
      k := k + 1;
      var frame := stack[idx];
      PopOnly(stack, idx);
      stack := stack[..idx] + stack[idx + 1..];
      if frame.curr == target {
        assert Route(walk, start, target);
        return Some(frame.path), k, walk;
      }
      var choice;
      choice, k := ChooseSuccessor(g, frame, demand, draws, k);
      if choice.Some? {
        var next := choice.value;
        SearchStep(g, start, target, demand, universe, walk, next);
        stack := stack + [Frame(next, frame.path + [next], frame.visited + {next})];
        walk := walk + [next];
      } else {
        assert Stuck(g, target, demand, walk);
      }
    }
    return None, k, walk;
  }

  // ---------------------------------------------------------------- fitness

  /** calculate_fitness: the weighted total cost, or +inf when computing it raises. */
  function Fitness(g: Graph, negLn: NegLog, w: Weights, path: seq<int>): (c: Cost)
    ensures c.Fin? <==> NetMetrics(g, negLn, path).Measured?
    ensures c.Fin? ==> c.amount == Combine(w, NetMetrics(g, negLn, path).metrics)
  {
    match WeightedTotalCost(g, negLn, path, w)
    case Ok(c) => c
    case Err(_) => Inf
  }

  function FitnessOf(rt: Router, g: Graph, negLn: NegLog): seq<int> -> Cost {
    p => Fitness(g, negLn, rt.weights, p)
  }

  // ---------------------------------------------------------------- crossover

  /** `p[1:-1]`. */
  function Interior(p: seq<int>): seq<int> {
    if |p| <= 2 then [] else p[1..|p| - 1]
  }

  /** The interior nodes of p1, in order, that are interior nodes of p2. */
  function CommonInterior(p1: seq<int>, p2: seq<int>): (c: seq<int>)
    ensures forall x :: x in c <==> x in Interior(p1) && x in Interior(p2)
  {
    FilterMembers(Interior(p1), x => x in Interior(p2));
    Filter(Interior(p1), x => x in Interior(p2))
  }

  /** `s.index(x)`: the first position of x. */
  function IndexOf(s: seq<int>, x: int): (i: nat)
    requires x in s
    ensures i < |s| && s[i] == x
    ensures forall j :: 0 <= j < i ==> s[j] != x
  {
    if s[0] == x then 0 else 1 + IndexOf(s[1..], x)
  }

  /** `parent1[:i1] + parent2[i2:]` at the first occurrences of the pivot. */
  function Splice(p1: seq<int>, p2: seq<int>, pivot: int): seq<int>
    requires pivot in p1 && pivot in p2
  {
    p1[..IndexOf(p1, pivot)] + p2[IndexOf(p2, pivot)..]
  }

  /** crossover, with u the one draw it consumes: a coin between the parents
      when their interiors share nothing, otherwise a random shared pivot whose
      splice is kept only when it repeats no node. */
  function Crossover(p1: seq<int>, p2: seq<int>, u: real): (child: seq<int>)
    requires 0.0 <= u < 1.0
    ensures Distinct(p1) && Distinct(p2) ==> Distinct(child)
  {
    var common := CommonInterior(p1, p2);
    if common == [] then
      (if u < 0.5 then p1 else p2)
    else
      var pivot := common[Pick(u, |common|)];
      assert pivot in Interior(p1) && pivot in Interior(p2);
      var child := Splice(p1, p2, pivot);
      if Distinct(child) then child else p1
  }

  /** Without a shared interior node the child is one of the parents unchanged;
      with one, it is either a duplicate-free splice at a shared interior node
      or parent1. */
  lemma CrossoverOutcomes(p1: seq<int>, p2: seq<int>, u: real)
    requires 0.0 <= u < 1.0
    ensures CommonInterior(p1, p2) == [] ==> Crossover(p1, p2, u) == (if u < 0.5 then p1 else p2)
    ensures CommonInterior(p1, p2) != [] ==> (
      Crossover(p1, p2, u) == p1 ||
      exists pivot :: pivot in Interior(p1) && pivot in Interior(p2) &&
        Crossover(p1, p2, u) == Splice(p1, p2, pivot) && Distinct(Splice(p1, p2, pivot)))
  {
    var common := CommonInterior(p1, p2);
    if common != [] {
      var pivot := common[Pick(u, |common|)];
      assert pivot in common;
    }
  }

  /** In a duplicate-free path a node of the interior sits strictly inside. */
  lemma InteriorIndex(p: seq<int>, x: int)
    requires Distinct(p) && x in Interior(p)
    ensures x in p && 0 < IndexOf(p, x) < |p| - 1
  {
    var j :| 0 <= j < |Interior(p)| && Interior(p)[j] == x;
    assert p[j + 1] == x;
  }

  /** Joining a prefix of p to a suffix of q at a node they share keeps every
      hop admissible. */
  lemma SpliceAdmissible(g: Graph, p: seq<int>, q: seq<int>, i: nat, j: nat, demand: real)
    requires 0 < i < |p| && j < |q| && p[i] == q[j]
    requires AdmissiblePath(g, p, demand) && AdmissiblePath(g, q, demand)
    ensures AdmissiblePath(g, p[..i] + q[j..], demand)
  {
    var c := p[..i] + q[j..];
    forall h | 0 <= h < |c| - 1 ensures AdmissibleAt(g, c, h, demand) {
      if h < i - 1 {
        assert c[h] == p[h] && c[h + 1] == p[h + 1];
        assert AdmissibleAt(g, p, h, demand);
      } else if h == i - 1 {
        assert c[h] == p[i - 1] && c[h + 1] == p[i];
        assert AdmissibleAt(g, p, i - 1, demand);
      } else {
        assert c[h] == q[j + h - i] && c[h + 1] == q[j + h - i + 1];
        assert AdmissibleAt(g, q, j + h - i, demand);
      }
    }
  }

  /** A duplicate-free splice of two candidates at a shared interior node is
      a candidate. */
  lemma SpliceCandidate(rt: Router, g: Graph, p1: seq<int>, p2: seq<int>, pivot: int)
    requires Candidate(rt, g, p1) && Candidate(rt, g, p2)
    requires pivot in Interior(p1) && pivot in Interior(p2)
    requires Distinct(Splice(p1, p2, pivot))
    ensures Candidate(rt, g, Splice(p1, p2, pivot))
  {
    InteriorIndex(p1, pivot);
    InteriorIndex(p2, pivot);
    var i1, i2 := IndexOf(p1, pivot), IndexOf(p2, pivot);
    var child := p1[..i1] + p2[i2..];
    SpliceAdmissible(g, p1, p2, i1, i2, rt.demand);
    assert child[0] == p1[0];
    assert child[|child| - 1] == p2[|p2| - 1];
  }

  /** Crossing two candidates yields a candidate. */
  lemma CrossoverKeepsCandidate(rt: Router, g: Graph, p1: seq<int>, p2: seq<int>, u: real)
    requires 0.0 <= u < 1.0
    requires Candidate(rt, g, p1) && Candidate(rt, g, p2)
    ensures Candidate(rt, g, Crossover(p1, p2, u))
  {
    var common := CommonInterior(p1, p2);
    if common != [] {
      var pivot := common[Pick(u, |common|)];
      assert pivot in common;
      if Distinct(Splice(p1, p2, pivot)) {
        SpliceCandidate(rt, g, p1, p2, pivot);
      }
    }
  }

  // ---------------------------------------------------------------- mutation

  /** `r` is `path[:point] + suffix` for an inner point, with a duplicate-free
      result and a suffix that walks admissibly from path[point] to the target. */
  predicate Regrown(g: Graph, path: seq<int>, r: seq<int>, target: int, demand: real) {
    exists point :: 1 <= point <= |path| - 2 && point < |r| && r[..point] == path[..point] &&
      Route(r[point..], path[point], target) && AdmissiblePath(g, r[point..], demand) && Distinct(r)
  }

  /** mutate as a function of the draws: the kept path and the next unused draw. */
  ghost function Mutation(rt: Router, g: Graph, path: seq<int>, draws: Draws, k: nat): (seq<int>, nat)
    requires UnitDraws(draws)
  {
    if |path| < 3 then (path, k)
    else
      var point := 1 + Pick(draws(k), |path| - 2);
      var w := RandomPath(g, path[point], rt.target, rt.demand, draws, k + 1);
      if w.result.Some? && Distinct(path[..point] + w.result.value) then (path[..point] + w.result.value, w.cursor)
      else (path, w.cursor)
  }

  /** mutate: short paths stay; otherwise a random inner point is kept and a
      fresh random walk from it to the target replaces the rest, provided the
      walk succeeds and the result repeats no node. */
  method Mutate(rt: Router, g: Graph, path: seq<int>, draws: Draws, k0: nat) returns (r: seq<int>, k: nat)
    requires UnitDraws(draws)
    ensures |path| < 3 ==> r == path
    ensures r == path || Regrown(g, path, r, rt.target, rt.demand)
    ensures Candidate(rt, g, path) ==> Candidate(rt, g, r)
    ensures Mutation(rt, g, path, draws, k0) == (r, k)
  {
    k := k0;
    if |path| < 3 {
      return path, k;
    }
    var point := 1 + Pick(draws(k), |path| - 2);
    k := k + 1;
    var suffix, k', walk := FindRandomPath(g, path[point], rt.target, rt.demand, draws, k);
    k := k';
    if suffix.Some? {
      var candidate := path[..point] + suffix.value;
      if Distinct(candidate) {
        assert candidate[..point] == path[..point];
        assert candidate[point..] == suffix.value;
        if Candidate(rt, g, path) {
          SpliceAdmissible(g, path, suffix.value, point, 0, rt.demand);
          assert suffix.value[0..] == suffix.value;
          assert candidate[|candidate| - 1] == suffix.value[|suffix.value| - 1];
        }
        return candidate, k;
      }
    }
    return path, k;
  }

  // ---------------------------------------------------------------- ranking

  predicate SortedBy(s: seq<seq<int>>, key: seq<int> -> Cost) {
    forall i, j :: 0 <= i < j < |s| ==> AtMost(key(s[i]), key(s[j]))
  }

  /** Insert x before the first element whose key is strictly larger, so that
      equal keys keep their order (Python's sort is stable). */
  function InsertByKey(x: seq<int>, s: seq<seq<int>>, key: seq<int> -> Cost): (r: seq<seq<int>>)
    ensures |r| == |s| + 1 && multiset(r) == multiset(s) + multiset{x}
  {
    if s == [] then [x]
    else if Less(key(x), key(s[0])) then [x] + s
    else
      assert s == [s[0]] + s[1..];
      [s[0]] + InsertByKey(x, s[1..], key)
  }

  /** Inserting into a ranked list keeps it ranked. */
  lemma {:induction false} InsertKeepsSorted(x: seq<int>, s: seq<seq<int>>, key: seq<int> -> Cost)
    requires SortedBy(s, key)
    ensures SortedBy(InsertByKey(x, s, key), key)
    decreases |s|
  {
    if s != [] && !Less(key(x), key(s[0])) {
      InsertKeepsSorted(x, s[1..], key);
      AtMostTotal(key(x), key(s[0]));
      InsertLowerBound(x, s[1..], key, key(s[0]));
    } else if s != [] {
      AtMostTotal(key(s[0]), key(x));
      forall j | 0 <= j < |s| ensures AtMost(key(x), key(s[j])) {
        if j > 0 {
          AtMostTransitive(key(x), key(s[0]), key(s[j]));
        }
      }
    }
  }

  /** A lower bound on x and on every key of s bounds every key after insertion. */
  lemma {:induction false} InsertLowerBound(x: seq<int>, s: seq<seq<int>>, key: seq<int> -> Cost, b: Cost)
    requires AtMost(b, key(x))
    requires forall j :: 0 <= j < |s| ==> AtMost(b, key(s[j]))
    ensures forall j :: 0 <= j < |s| + 1 ==> AtMost(b, key(InsertByKey(x, s, key)[j]))
    decreases |s|
  {
    if s != [] && !Less(key(x), key(s[0])) {
      InsertLowerBound(x, s[1..], key, b);
    }
  }

  /** `sorted(population, key=...)`: an insertion sort, so ranking is stable. */
  function SortByKey(s: seq<seq<int>>, key: seq<int> -> Cost): (r: seq<seq<int>>)
    ensures |r| == |s| && SortedBy(r, key)
    ensures multiset(r) == multiset(s)
  {
    if s == [] then []
    else
      var sorted := SortByKey(s[..|s| - 1], key);
      assert s == s[..|s| - 1] + [s[|s| - 1]];
      InsertKeepsSorted(s[|s| - 1], sorted, key);
      InsertByKey(s[|s| - 1], sorted, key)
  }

  /** `random.sample(xs, 2)`: two draws pick two different positions; the
      second draw ranges over the list with the first pick swapped out for the
      last element. */
  function SampleTwo(xs: seq<seq<int>>, u1: real, u2: real): (pair: (seq<int>, seq<int>))
    requires |xs| >= 2 && 0.0 <= u1 < 1.0 && 0.0 <= u2 < 1.0
    ensures exists i, j :: 0 <= i < |xs| && 0 <= j < |xs| && i != j && pair == (xs[i], xs[j])
  {
    var i := Pick(u1, |xs|);
    var j := Pick(u2, |xs| - 1);
    var j' := if j == i then |xs| - 1 else j;
    assert i != j';
    (xs[i], xs[j'])
  }

  /** `min(population, key=...)`: the first element of least key. */
  function FirstMin(s: seq<seq<int>>, key: seq<int> -> Cost): (i: nat)
    requires |s| > 0
    ensures i < |s|
    ensures forall j :: 0 <= j < |s| ==> AtMost(key(s[i]), key(s[j]))
    ensures forall j :: 0 <= j < i ==> Less(key(s[i]), key(s[j]))
  {
    if |s| == 1 then 0
    else
      var i := FirstMin(s[..|s| - 1], key);
      assert forall j :: 0 <= j < |s| - 1 ==> s[..|s| - 1][j] == s[j];
      AtMostTotal(key(s[|s| - 1]), key(s[i]));
      if Less(key(s[|s| - 1]), key(s[i])) then
        assert forall j :: 0 <= j < |s| - 1 ==> AtMost(key(s[|s| - 1]), key(s[j])) by {
          forall j | 0 <= j < |s| - 1 ensures AtMost(key(s[|s| - 1]), key(s[j])) {
            AtMostTransitive(key(s[|s| - 1]), key(s[i]), key(s[j]));
          }
        }
        assert forall j :: 0 <= j < |s| - 1 ==> Less(key(s[|s| - 1]), key(s[j])) by {
          forall j | 0 <= j < |s| - 1 ensures Less(key(s[|s| - 1]), key(s[j])) {
            AtMostTotal(key(s[j]), key(s[i]));
          }
        }
        |s| - 1
      else i
  }

  // ---------------------------------------------------------------- the run

  function EliteSize(n: nat): nat {
    if n < EliteCount then n else EliteCount
  }

  /** The initial population, the number of walks drawn, and the next unused draw. */
  datatype Seeded = Seeded(pop: seq<seq<int>>, attempts: nat, cursor: nat)

  /** The first loop of run_genetic_algorithm from attempt n on: a walk from
      the source per attempt, kept when it reaches the target; the loop stops
      after 2·population_size attempts, or as soon as the population is full. */
  ghost function Seed(rt: Router, g: Graph, draws: Draws, n: nat, pop: seq<seq<int>>, k: nat): Seeded
    requires UnitDraws(draws)
    decreases 2 * rt.populationSize - n
  {
    if n >= 2 * rt.populationSize then Seeded(pop, n, k)
    else
      var w := RandomPath(g, rt.source, rt.target, rt.demand, draws, k);
      var pop' := if w.result.Some? then pop + [w.result.value] else pop;
      if |pop'| >= rt.populationSize then Seeded(pop', n + 1, w.cursor)
      else Seed(rt, g, draws, n + 1, pop', w.cursor)
  }

  /** Seeding draws at most 2·population_size walks, keeps at most
      population_size of them, stops early only with a full population, and
      keeps only candidates. */
  lemma {:induction false} SeedBounds(rt: Router, g: Graph, draws: Draws, n: nat, pop: seq<seq<int>>, k: nat)
    requires UnitDraws(draws)
    requires |pop| <= n <= 2 * rt.populationSize && |pop| <= rt.populationSize
    requires |pop| < rt.populationSize || n == 2 * rt.populationSize
    requires AllCandidates(rt, g, pop)
    ensures var s := Seed(rt, g, draws, n, pop, k);
      |s.pop| <= rt.populationSize && |s.pop| <= s.attempts <= 2 * rt.populationSize &&
      (s.attempts < 2 * rt.populationSize ==> |s.pop| == rt.populationSize) &&
      AllCandidates(rt, g, s.pop)
    decreases 2 * rt.populationSize - n
  {
    if n < 2 * rt.populationSize {
      var w := RandomPath(g, rt.source, rt.target, rt.demand, draws, k);
      var pop' := if w.result.Some? then pop + [w.result.value] else pop;
      assert Elems([rt.source]) == {rt.source};
      RandomWalkArrives(g, rt.target, rt.demand, draws, [rt.source], k);
      if |pop'| < rt.populationSize {
        SeedBounds(rt, g, draws, n + 1, pop', w.cursor);
      }
    }
  }

  /** The first loop of run_genetic_algorithm: up to 2·population_size random
      walks from the source, stopping once the population is full. */
  method InitialPopulation(rt: Router, g: Graph, draws: Draws, k0: nat)
    returns (pop: seq<seq<int>>, k: nat, ghost attempts: nat)
    requires UnitDraws(draws)
    ensures Seed(rt, g, draws, 0, [], k0) == Seeded(pop, attempts, k)
    ensures |pop| <= rt.populationSize && |pop| <= attempts <= 2 * rt.populationSize
    ensures AllCandidates(rt, g, pop)
  {
    ghost var spec := Seed(rt, g, draws, 0, [], k0);
    pop, k, attempts := [], k0, 0;
    for n := 0 to 2 * rt.populationSize
      invariant attempts == n && |pop| <= n
      invariant |pop| < rt.populationSize || n == 0
      invariant AllCandidates(rt, g, pop)
      invariant spec == Seed(rt, g, draws, n, pop, k)
    {
      var found, k', walk := FindRandomPath(g, rt.source, rt.target, rt.demand, draws, k);
      k := k';
      attempts := attempts + 1;
      if found.Some? {
        pop := pop + [found.value];
      }
      if |pop| >= rt.populationSize {
        break;
      }
    }
  }

  predicate AllCandidates(rt: Router, g: Graph, ps: seq<seq<int>>) {
    forall p :: p in ps ==> Candidate(rt, g, p)
  }

  /** One child as a function of the draws: the child and the next unused draw. */
  ghost function Child(rt: Router, g: Graph, pool: seq<seq<int>>, draws: Draws, k: nat): (seq<int>, nat)
    requires UnitDraws(draws) && |pool| >= 2
  {
    var parents := SampleTwo(pool, draws(k), draws(k + 1));
    var k1 := k + 2;
    var child := Crossover(parents.0, parents.1, draws(k1));
    var k2 := k1 + 1;
    if draws(k2) < rt.mutationRate then Mutation(rt, g, child, draws, k2 + 1) else (child, k2 + 1)
  }

  /** One child of the loop that refills the population: two different
      parents sampled from the pool, crossed, and mutated when the draw falls
      below the mutation rate. */
  method Offspring(rt: Router, g: Graph, pool: seq<seq<int>>, draws: Draws, k0: nat)
    returns (child: seq<int>, k: nat)
    requires UnitDraws(draws) && |pool| >= 2
    ensures AllCandidates(rt, g, pool) ==> Candidate(rt, g, child)
    ensures Child(rt, g, pool, draws, k0) == (child, k)
  {
    k := k0;
    var parents := SampleTwo(pool, draws(k), draws(k + 1));
    k := k + 2;
    var u := draws(k);
    child := Crossover(parents.0, parents.1, u);
    k := k + 1;
    if AllCandidates(rt, g, pool) {
      CrossoverKeepsCandidate(rt, g, parents.0, parents.1, u);
    }
    var mutates := draws(k) < rt.mutationRate;
    k := k + 1;
    assert Child(rt, g, pool, draws, k0) == if mutates then Mutation(rt, g, child, draws, k) else (child, k);
    if mutates {
      child, k := Mutate(rt, g, child, draws, k);
    }
  }

  lemma AllCandidatesSorted(rt: Router, g: Graph, ps: seq<seq<int>>, key: seq<int> -> Cost)
    requires AllCandidates(rt, g, ps)
    ensures AllCandidates(rt, g, SortByKey(ps, key))
  {
    var ranked := SortByKey(ps, key);
    forall p | p in ranked ensures Candidate(rt, g, p) {
      assert p in multiset(ranked);
    }
  }

  lemma AllCandidatesTake(rt: Router, g: Graph, ps: seq<seq<int>>, n: nat)
    requires AllCandidates(rt, g, ps) && n <= |ps|
    ensures AllCandidates(rt, g, ps[..n])
  {
    forall p | p in ps[..n] ensures Candidate(rt, g, p) {
      var i :| 0 <= i < n && ps[..n][i] == p;
      assert ps[i] == p;
    }
  }

  lemma AllCandidatesPush(rt: Router, g: Graph, ps: seq<seq<int>>, x: seq<int>)
    requires AllCandidates(rt, g, ps) && Candidate(rt, g, x)
    ensures AllCandidates(rt, g, ps + [x])
  {
  }

  /** A population after a generation, or the exception that ended it, and
      the next unused draw. */
  datatype Bred = Bred(pop: Result<seq<seq<int>>>, cursor: nat)

  /** The refill loop from `newPop` on: a child per round until the
      population is full; random.sample raises when the pool has fewer than
      two paths. */
  ghost function Refill(rt: Router, g: Graph, pool: seq<seq<int>>, draws: Draws, newPop: seq<seq<int>>, k: nat): (b: Bred)
    requires UnitDraws(draws)
    ensures b.pop.Ok? ==> |b.pop.value| == (if |newPop| < rt.populationSize then rt.populationSize else |newPop|)
    decreases rt.populationSize - |newPop|
  {
    if |newPop| >= rt.populationSize then Bred(Ok(newPop), k)
    else if |pool| < 2 then Bred(Err(SampleTooLarge), k)
    else
      var c := Child(rt, g, pool, draws, k);
      Refill(rt, g, pool, draws, newPop + [c.0], c.1)
  }

  /** One generation as a function of the draws: the elite of the ranked
      population, refilled from its best twenty. */
  ghost function Generation(rt: Router, g: Graph, key: seq<int> -> Cost, population: seq<seq<int>>, draws: Draws, k: nat): Bred
    requires UnitDraws(draws)
  {
    var ranked := SortByKey(population, key);
    var elite := EliteSize(|ranked|);
    Refill(rt, g, ranked[..if |ranked| < ParentPool then |ranked| else ParentPool], draws, ranked[..elite], k)
  }

  /** One generation: rank by `key` (the fitness), keep the best five, and
      fill up to population_size with children of parents from the best twenty. */
  method NextGeneration(rt: Router, g: Graph, key: seq<int> -> Cost, population: seq<seq<int>>, draws: Draws, k0: nat)
    returns (r: Result<seq<seq<int>>>, k: nat)
    requires UnitDraws(draws)
    ensures r.Err? <==> |population| < 2 && |population| < rt.populationSize
    ensures r.Err? ==> r.fault == SampleTooLarge
    ensures r.Ok? ==> (
      var elite := EliteSize(|population|);
      |r.value| == (if elite < rt.populationSize then rt.populationSize else elite) &&
      r.value[..elite] == SortByKey(population, key)[..elite])
    ensures r.Ok? && AllCandidates(rt, g, population) ==> AllCandidates(rt, g, r.value)
    ensures Generation(rt, g, key, population, draws, k0) == Bred(r, k)
  {
    ghost var spec := Generation(rt, g, key, population, draws, k0);
    k := k0;
    var ranked := SortByKey(population, key);
    ghost var good := AllCandidates(rt, g, population);
    var elite := EliteSize(|ranked|);
    var newPop := ranked[..elite];
    var pool := ranked[..if |ranked| < ParentPool then |ranked| else ParentPool];
    if good {
      AllCandidatesSorted(rt, g, population, key);
      AllCandidatesTake(rt, g, ranked, elite);
      AllCandidatesTake(rt, g, ranked, |pool|);
    }
    while |newPop| < rt.populationSize
      invariant |newPop| >= elite && newPop[..elite] == ranked[..elite]
      invariant |newPop| > elite ==> |newPop| <= rt.populationSize
      invariant |pool| < 2 ==> |newPop| == elite
      invariant good ==> AllCandidates(rt, g, newPop)
      invariant spec == Refill(rt, g, pool, draws, newPop, k)
      decreases rt.populationSize - |newPop|
    {
      if |pool| < 2 {
        return Err(SampleTooLarge), k;
      }
      var child;
      child, k := Offspring(rt, g, pool, draws, k);
      if good {
        AllCandidatesPush(rt, g, newPop, child);
      }
      AppendKeepsPrefix(newPop, child, elite);
      newPop := newPop + [child];
    }
    return Ok(newPop), k;
  }

  /** The generations from number `gen` on, each ranking by fitness; an
      exception ends the run. A non-empty population stays non-empty. */
  ghost function Evolve(rt: Router, g: Graph, negLn: NegLog, draws: Draws, population: seq<seq<int>>, k: nat, gen: nat): (b: Bred)
    requires UnitDraws(draws)
    ensures population != [] && b.pop.Ok? ==> b.pop.value != []
    decreases rt.generations - gen
  {
    if gen >= rt.generations then Bred(Ok(population), k)
    else
      var b := Generation(rt, g, FitnessOf(rt, g, negLn), population, draws, k);
      match b.pop
      case Err(_) => b
      case Ok(next) => Evolve(rt, g, negLn, draws, next, b.cursor, gen + 1)
  }

  /** The answer of run_genetic_algorithm and the next unused draw. */
  datatype GaRun = GaRun(answer: Result<Option<seq<int>>>, cursor: nat)

  /** run_genetic_algorithm as a function of the draws: None without an
      initial path, otherwise the first path of least fitness after the
      generations. */
  ghost function GeneticRun(rt: Router, g: Graph, negLn: NegLog, draws: Draws, k0: nat): GaRun
    requires UnitDraws(draws)
  {
    var s := Seed(rt, g, draws, 0, [], k0);
    if s.pop == [] then GaRun(Ok(None), s.cursor)
    else
      match Evolve(rt, g, negLn, draws, s.pop, s.cursor, 0)
      case Bred(Err(f), k) => GaRun(Err(f), k)
      case Bred(Ok(last), k) => GaRun(Ok(Some(last[FirstMin(last, FitnessOf(rt, g, negLn))])), k)
  }

  /** run_genetic_algorithm: None when no walk reached the target; otherwise,
      after the generations, a member of least fitness of the last population.
      A generation that needs parents but has fewer than two individuals
      raises. The ghost `initial` is the seeded population and `last` the
      population the answer is drawn from. */
  method RunGeneticAlgorithm(rt: Router, g: Graph, negLn: NegLog, draws: Draws, k0: nat)
    returns (r: Result<Option<seq<int>>>, k: nat, ghost initial: seq<seq<int>>, ghost last: seq<seq<int>>)
    requires UnitDraws(draws)
    ensures GeneticRun(rt, g, negLn, draws, k0) == GaRun(r, k)
    ensures initial == Seed(rt, g, draws, 0, [], k0).pop
    ensures r.Ok? && r.value.Some? ==>
      Evolve(rt, g, negLn, draws, initial, Seed(rt, g, draws, 0, [], k0).cursor, 0) == Bred(Ok(last), k)
    ensures r.Ok? && r.value.Some? ==> Candidate(rt, g, r.value.value)
    ensures |initial| <= rt.populationSize
    ensures r == Ok(None) <==> initial == []
    ensures r.Err? ==> r.fault == SampleTooLarge && |initial| < 2
    ensures r.Ok? && r.value.Some? ==> (
      var best := r.value.value;
      best in last &&
      forall q :: q in last ==> AtMost(Fitness(g, negLn, rt.weights, best), Fitness(g, negLn, rt.weights, q)))
  {
    ghost var attempts;
    var population;
    population, k, attempts := InitialPopulation(rt, g, draws, k0);
    initial, last := population, population;
    if population == [] {
      return Ok(None), k, initial, last;
    }
    ghost var spec := Evolve(rt, g, negLn, draws, initial, k, 0);
    for gen := 0 to rt.generations
      invariant |population| >= 1
      invariant |population| < 2 ==> |population| == |initial|
      invariant AllCandidates(rt, g, population)
      invariant spec == Evolve(rt, g, negLn, draws, population, k, gen)
    {
      var next, k' := NextGeneration(rt, g, FitnessOf(rt, g, negLn), population, draws, k);
      k := k';
      if next.Err? {
        return Err(next.fault), k, initial, population;
      }
      population := next.value;
    }
    var key := FitnessOf(rt, g, negLn);
    var i := FirstMin(population, key);
    last := population;
    assert population[i] in population;
    return Ok(Some(population[i])), k, initial, last;
  }

}
