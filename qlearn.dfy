/** q_learn.py: a tabular Q-learning agent over the shared graph. The Q-table
    is a dense 251 x 251 array indexed by node ids; training runs epsilon-greedy
    episodes that never revisit a node, and the learnt route is read off
    greedily. */
module QLearning {
  import opened Common
  import opened Network
  import opened MetricsCalculator

  /** `np.zeros((251, 251))`: one row and one column per node id 0..250. */
  const TableSize: int := 251
  const Alpha: real := 0.7
  const Gamma: real := 0.9
  const EpsilonDecay: real := 0.994
  const EpsilonMin: real := 0.01
  /** Both the greedy read-out and an episode stop after 100 moves. */
  const MaxSteps: nat := 100
  const GoalReward: real := 10000.0
  /** next_max of an action that leads into a dead end. */
  const DeadEnd: real := -10000.0
  /** calculate_cost's answer when computing the cost raises. */
  const FailedCost: real := 99999.0

  predicate InTable(id: int) {
    0 <= id < TableSize
  }

  predicate AllInTable(s: seq<int>) {
    forall i :: 0 <= i < |s| ==> InTable(s[i])
  }

  /** Every neighbour id of the adjacency lists indexes the Q-table. */
  ghost predicate Indexed(g: Graph) {
    forall u, i :: 0 <= i < |Entries(g, u)| ==> InTable(Entries(g, u)[i].neighbor)
  }

  // ---------------------------------------------------------------- actions

  /** get_valid_actions: the neighbours of curr, in adjacency order, whose link
      (as get_link_info reports it) carries the demand. */
  function ValidActions(g: Graph, curr: int, demand: real): (actions: seq<int>)
    ensures forall v {:trigger v in actions} :: v in actions <==> v in GetNeighbors(g, curr) && Admissible(g, curr, v, demand)
  {
    FilterMembers(GetNeighbors(g, curr), v => Admissible(g, curr, v, demand));
    Filter(GetNeighbors(g, curr), v => Admissible(g, curr, v, demand))
  }

  /** A valid action is exactly a neighbour whose bandwidth is at least the demand. */
  lemma ValidActionIffBandwidth(g: Graph, curr: int, v: int, demand: real)
    ensures v in ValidActions(g, curr, demand) <==>
      v in GetNeighbors(g, curr) && GetLinkInfo(g, curr, v).Some? && GetLinkInfo(g, curr, v).value.bandwidth >= demand
    ensures v in GetNeighbors(g, curr) ==> GetLinkInfo(g, curr, v).Some?
  {
    NeighborIffLink(g, curr, v);
  }

  /** `[a for a in actions if a not in visited]` over the valid actions. */
  function Fresh(g: Graph, curr: int, demand: real, visited: set<int>): (actions: seq<int>)
    ensures forall v {:trigger v in actions} :: v in actions <==> v in ValidActions(g, curr, demand) && v !in visited
  {
    FilterMembers(ValidActions(g, curr, demand), NotIn(visited));
    Unvisited(ValidActions(g, curr, demand), visited)
  }

  /** On an indexed graph every candidate action indexes the Q-table. */
  lemma FreshInTable(g: Graph, curr: int, demand: real, visited: set<int>)
    requires Indexed(g)
    ensures AllInTable(Fresh(g, curr, demand, visited))
  {
    var actions := Fresh(g, curr, demand, visited);
    forall i | 0 <= i < |actions| ensures InTable(actions[i]) {
      var ns := GetNeighbors(g, curr);
      assert actions[i] in actions;
      var j :| 0 <= j < |ns| && ns[j] == actions[i];
      assert Entries(g, curr)[j].neighbor == actions[i];
    }
  }

  // ---------------------------------------------------------------- cost and reward

  /** The origin charges calculate_link_cost adds for the start node. */
  function StartPenalty(g: Graph, negLn: NegLog, w: Weights, start: int): real
    requires start in g.vertices
  {
    w.delay * g.vertices[start].processingDelay + w.reliability * negLn(g.vertices[start].reliability)
  }

  /** The weighted cost of the link alone, without any origin charges. */
  function LinkOnlyCost(negLn: NegLog, w: Weights, l: Link): real
    requires l.bandwidth != 0.0
  {
    w.delay * l.delay + w.reliability * negLn(l.reliability) + w.resource * (MaxBandwidth / l.bandwidth)
  }

  /** Leaving a node, removing that node's own processing delay and
      reliability charges from the weighted link cost leaves the link's. */
  lemma OriginChargesCancel(g: Graph, negLn: NegLog, w: Weights, src: int, dst: int)
    requires WeightedLinkCost(g, negLn, src, dst, w).Ok? && src in g.vertices
    ensures GetLinkInfo(g, src, dst).Some? && GetLinkInfo(g, src, dst).value.bandwidth != 0.0
    ensures WeightedLinkCost(g, negLn, src, dst, w).value - StartPenalty(g, negLn, w, src) ==
      LinkOnlyCost(negLn, w, GetLinkInfo(g, src, dst).value)
  {
    var r := WeightedLinkCost(g, negLn, src, dst, w);
    var l, x := GetLinkInfo(g, src, dst).value, g.vertices[src];
    var m := LinkCost(g, negLn, src, dst).value;
    assert m == Metrics(l.delay + x.processingDelay, negLn(l.reliability) + negLn(x.reliability),
                        MaxBandwidth / l.bandwidth);
    assert r.value == w.delay * m.delay + w.reliability * m.reliability + w.resource * m.resource;
    assert w.delay * m.delay == w.delay * l.delay + w.delay * x.processingDelay;
    assert w.reliability * m.reliability == w.reliability * negLn(l.reliability) + w.reliability * negLn(x.reliability);
  }

  /** calculate_cost: a step whose link cost raises costs 99999; leaving the
      start node, the start node's processing delay and reliability charges
      cancel and only the link is charged; from any other node the full link
      cost, origin included, is charged. */
  function StepCost(g: Graph, negLn: NegLog, w: Weights, src: int, dst: int, start: int): (r: real)
    ensures WeightedLinkCost(g, negLn, src, dst, w).Err? ==> r == FailedCost
    ensures WeightedLinkCost(g, negLn, src, dst, w).Ok? && src != start ==>
      r == Combine(w, LinkCost(g, negLn, src, dst).value)
    ensures WeightedLinkCost(g, negLn, src, dst, w).Ok? && src == start ==>
      GetLinkInfo(g, src, dst).Some? && GetLinkInfo(g, src, dst).value.bandwidth != 0.0 &&
      r == LinkOnlyCost(negLn, w, GetLinkInfo(g, src, dst).value)
  {
    match WeightedLinkCost(g, negLn, src, dst, w)
    case Err(_) => FailedCost
    case Ok(total) =>
      if src == start && start in g.vertices then
        OriginChargesCancel(g, negLn, w, src, dst);
        total - StartPenalty(g, negLn, w, start)
      else total
  }

  /** The reward of moving from state to action: 10000 for reaching the end
      node; otherwise the step cost negated, so a raising link is worth
      -99999 and an ordinary step minus its weighted cost. */
  function Reward(g: Graph, negLn: NegLog, w: Weights, state: int, action: int, start: int, end: int): (r: real)
    ensures action == end ==> r == GoalReward
    ensures action != end && WeightedLinkCost(g, negLn, state, action, w).Err? ==> r == -FailedCost
    ensures action != end && WeightedLinkCost(g, negLn, state, action, w).Ok? && state != start ==>
      r == -Combine(w, LinkCost(g, negLn, state, action).value)
    ensures action != end && WeightedLinkCost(g, negLn, state, action, w).Ok? && state == start ==>
      r == -LinkOnlyCost(negLn, w, GetLinkInfo(g, state, action).value)
  {
    if action == end then GoalReward else -StepCost(g, negLn, w, state, action, start)
  }

  // ---------------------------------------------------------------- epsilon

  /** The end-of-episode decay: multiply by 0.994 while above epsilon_min. */
  function DecayOnce(e: real): real {
    if e > EpsilonMin then e * EpsilonDecay else e
  }

  /** epsilon after n episodes. */
  function Decayed(e: real, n: nat): real
    decreases n
  {
    if n == 0 then e else Decayed(DecayOnce(e), n - 1)
  }

  /** The decay never increases epsilon, keeps it positive, and never takes it
      below epsilon_min · 0.994 unless it started there. */
  lemma {:induction false} DecayedBounds(e: real, n: nat)
    requires e > 0.0
    ensures 0.0 < Decayed(e, n) <= e
    ensures Decayed(e, n) >= (if e < EpsilonMin * EpsilonDecay then e else EpsilonMin * EpsilonDecay)
    decreases n
  {
    if n > 0 {
      var d := DecayOnce(e);
      assert 0.0 < d <= e;
      assert d >= (if e < EpsilonMin * EpsilonDecay then e else EpsilonMin * EpsilonDecay);
      DecayedBounds(d, n - 1);
    }
  }

  /** Once at or below epsilon_min, epsilon stays put. */
  lemma {:induction false} DecayedSettles(e: real, n: nat)
    requires e <= EpsilonMin
    ensures Decayed(e, n) == e
    decreases n
  {
    if n > 0 {
      DecayedSettles(DecayOnce(e), n - 1);
    }
  }

  // ---------------------------------------------------------------- walks

  /** Move i of a trail (from trail[i] to trail[i + 1]) is a valid action. */
  predicate MoveAt(g: Graph, demand: real, trail: seq<int>, i: int)
    requires 0 <= i < |trail| - 1
  {
    trail[i + 1] in ValidActions(g, trail[i], demand)
  }

  /** A sequence of moves from start: no node twice, each move a valid action
      of the node before it, and the end node (if reached) only last. */
  predicate Trail(g: Graph, start: int, end: int, demand: real, trail: seq<int>) {
    |trail| >= 1 && trail[0] == start && Distinct(trail) &&
    (forall i :: 0 <= i < |trail| - 1 ==> MoveAt(g, demand, trail, i)) &&
    (forall i :: 0 <= i < |trail| - 1 ==> trail[i] != end)
  }

  /** Why a walk stops: it reached the end node, it made the 100 moves, or its
      last node has no unvisited valid action. */
  predicate Finished(g: Graph, end: int, demand: real, trail: seq<int>)
    requires |trail| >= 1
  {
    trail[|trail| - 1] == end || |trail| == MaxSteps + 1 ||
    Fresh(g, trail[|trail| - 1], demand, Elems(trail)) == []
  }

  /** Every move of a trail is an admissible hop. */
  lemma TrailAdmissible(g: Graph, start: int, end: int, demand: real, trail: seq<int>)
    requires Trail(g, start, end, demand, trail)
    ensures AdmissiblePath(g, trail, demand)
    ensures Route(trail, start, trail[|trail| - 1])
  {
    forall i | 0 <= i < |trail| - 1 ensures AdmissibleAt(g, trail, i, demand) {
      assert MoveAt(g, demand, trail, i);
    }
  }

  /** Moving to an unvisited valid action extends a trail. */
  lemma TrailStep(g: Graph, start: int, end: int, demand: real, trail: seq<int>, next: int)
    requires Trail(g, start, end, demand, trail) && trail[|trail| - 1] != end
    requires next in Fresh(g, trail[|trail| - 1], demand, Elems(trail))
    ensures Trail(g, start, end, demand, trail + [next])
    ensures Elems(trail + [next]) == Elems(trail) + {next}
  {
    var t := trail + [next];
    assert next !in trail;
    forall i | 0 <= i < |t| - 1 ensures MoveAt(g, demand, t, i) && t[i] != end {
      if i < |trail| - 1 {
        assert t[i] == trail[i] && t[i + 1] == trail[i + 1];
        assert MoveAt(g, demand, trail, i);
      }
    }
    assert Elems(t) == Elems(trail) + {next};
  }

  /** The moves made over a sequence of episodes: the edges of every trail. */
  function Moves(trails: seq<seq<int>>): set<Edge> {
    if trails == [] then {} else Moves(trails[..|trails| - 1]) + Edges(trails[|trails| - 1])
  }

  /** One more episode adds the edges of its trail to the moves. */
  lemma MovesAppend(trails: seq<seq<int>>, trail: seq<int>)
    ensures Moves(trails + [trail]) == Moves(trails) + Edges(trail)
  {
    assert (trails + [trail])[..|trails|] == trails;
  }

  /** A move was made exactly when it is a hop of one of the trails. */
  lemma {:induction false} MovesAreTrailHops(trails: seq<seq<int>>, c: Edge)
    ensures c in Moves(trails) <==> exists i :: 0 <= i < |trails| && c in Edges(trails[i])
    decreases |trails|
  {
    if trails != [] {
      var init := trails[..|trails| - 1];
      MovesAreTrailHops(init, c);
      if c in Moves(init) {
        var i :| 0 <= i < |init| && c in Edges(init[i]);
        assert trails[i] == init[i];
      }
      if exists i :: 0 <= i < |trails| && c in Edges(trails[i]) {
        var i :| 0 <= i < |trails| && c in Edges(trails[i]);
        if i < |init| {
          assert init[i] == trails[i];
        }
      }
    }
  }

  /** Every cell (s, a) in `cells` is a move along a valid action of s. */
  predicate ValidMoves(g: Graph, demand: real, cells: set<(int, int)>) {
    forall c :: c in cells ==> c.1 in ValidActions(g, c.0, demand)
  }

  /** A node that no hop of the trail leaves (it is off the trail, or its
      tip) is the source of none of the trail's edges. */
  lemma NoEdgeLeaves(trail: seq<int>, s: int)
    requires |trail| >= 1 && s !in trail[..|trail| - 1]
    ensures forall a :: (s, a) !in Edges(trail)
  {
    forall i | 0 <= i < Hops(trail) ensures Hop(trail, i).0 != s {
      assert trail[..|trail| - 1][i] == trail[i];
    }
  }

  // ---------------------------------------------------------------- the agent

  class QLearningAgent {
    const g: Graph
    const negLn: NegLog
    const w: Weights
    /** The Q-table: q[s, a] is the learnt value of moving from s to a. */
    const q: array2<real>
    var epsilon: real

    predicate Shaped() {
      q.Length0 == TableSize && q.Length1 == TableSize
    }

    ghost predicate Valid()
      reads this
    {
      Shaped() && 0.0 < epsilon <= 1.0
    }

    /** __init__: the graph and weights, an all-zero table and epsilon 1. */
    constructor (g: Graph, negLn: NegLog, w: Weights)
      ensures this.g == g && this.negLn == negLn && this.w == w
      ensures fresh(q) && Valid() && epsilon == 1.0
      ensures forall s, a :: 0 <= s < TableSize && 0 <= a < TableSize ==> q[s, a] == 0.0
    {
      this.g, this.negLn, this.w := g, negLn, w;
      q := new real[TableSize, TableSize]((s, a) => 0.0);
      epsilon := 1.0;
    }

    /** `max(q_values, key=q_values.get)` over the dict built from actions:
        the first action (in order) of largest Q value. */
    function Greedy(s: int, actions: seq<int>): (i: nat)
      reads q
      requires Shaped() && InTable(s) && AllInTable(actions) && actions != []
      ensures i < |actions|
    {
      if |actions| == 1 then 0
      else
        var n := |actions| - 1;
        var i := Greedy(s, actions[..n]);
        if q[s, actions[n]] > q[s, actions[i]] then n else i
    }

    /** The greedy index holds a largest Q value, and every action before it
        has a strictly smaller one: Python's `max` keeps the first maximum. */
    lemma {:induction false} GreedyIsFirstMax(s: int, actions: seq<int>)
      requires Shaped() && InTable(s) && AllInTable(actions) && actions != []
      ensures var i := Greedy(s, actions);
        (forall j :: 0 <= j < |actions| ==> q[s, actions[j]] <= q[s, actions[i]]) &&
        (forall j :: 0 <= j < i ==> q[s, actions[j]] < q[s, actions[i]])
      decreases |actions|
    {
      if |actions| > 1 {
        var n := |actions| - 1;
        var pre := actions[..n];
        GreedyIsFirstMax(s, pre);
        var i := Greedy(s, pre);
        forall j | 0 <= j < n ensures pre[j] == actions[j] {
        }
      }
    }

    /** next_max: 0 at the end node; otherwise the largest Q value from action
        over its valid actions outside visited and action itself; -10000 when
        there is none. */
    function NextMax(action: int, end: int, demand: real, visited: set<int>): (m: real)
      reads q
      requires Shaped() && InTable(action) && Indexed(g)
      ensures action == end ==> m == 0.0
      ensures action != end && Fresh(g, action, demand, visited + {action}) == [] ==> m == DeadEnd
      ensures action != end && Fresh(g, action, demand, visited + {action}) != [] ==> (
        var next := Fresh(g, action, demand, visited + {action});
        (exists b :: b in next && m == q[action, b]) &&
        forall b :: b in next ==> q[action, b] <= m)
    {
      if action == end then 0.0
      else
        var next := Fresh(g, action, demand, visited + {action});
        FreshInTable(g, action, demand, visited + {action});
        if next == [] then DeadEnd
        else
          var i := Greedy(action, next);
          GreedyIsFirstMax(action, next);
          assert next[i] in next;
          forall b | b in next ensures q[action, b] <= q[action, next[i]] {
            var j :| 0 <= j < |next| && next[j] == b;
          }
          q[action, next[i]]
    }

    /** Greedy reads only row s of the table, so it picks the same action
        while that row is unchanged. */
    twostate lemma {:induction false} GreedyKeepsRow(s: int, new actions: seq<int>)
      requires Shaped() && InTable(s) && AllInTable(actions) && actions != []
      requires forall a :: 0 <= a < TableSize ==> q[s, a] == old(q[s, a])
      ensures Greedy(s, actions) == old(Greedy(s, actions))
      decreases |actions|
    {
      if |actions| > 1 {
        GreedyKeepsRow(s, actions[..|actions| - 1]);
      }
    }

    /** next_max from action reads only row action of the table. */
    twostate lemma NextMaxKeepsRow(action: int, new end: int, new demand: real, new visited: set<int>)
      requires Shaped() && InTable(action) && Indexed(g)
      requires forall a :: 0 <= a < TableSize ==> q[action, a] == old(q[action, a])
      ensures NextMax(action, end, demand, visited) == old(NextMax(action, end, demand, visited))
    {
      var next := Fresh(g, action, demand, visited + {action});
      FreshInTable(g, action, demand, visited + {action});
      if action != end && next != [] {
        GreedyKeepsRow(action, next);
      }
    }

    /** While only cells of the trail's hops have changed, the tip's row is
        as before, so Greedy from the tip picks the same action. */
    twostate lemma TipGreedyKept(trail: seq<int>, new moved: set<(int, int)>, new actions: seq<int>)
      requires Shaped() && AllInTable(trail) && |trail| >= 1 && Distinct(trail) && moved == Edges(trail)
      requires AllInTable(actions) && actions != []
      requires forall s, a :: InTable(s) && InTable(a) && (s, a) !in moved ==> q[s, a] == old(q[s, a])
      ensures Greedy(trail[|trail| - 1], actions) == old(Greedy(trail[|trail| - 1], actions))
    {
      NoEdgeLeaves(trail, trail[|trail| - 1]);
      GreedyKeepsRow(trail[|trail| - 1], actions);
    }

    /** While only cells of the trail's hops have changed, the cell of a move
        from the tip to a node off the trail and next_max from that node are
        as before. */
    twostate lemma MoveKept(trail: seq<int>, new moved: set<(int, int)>, new action: int, new end: int, new demand: real, new visited: set<int>)
      requires Shaped() && Indexed(g) && AllInTable(trail) && |trail| >= 1 && Distinct(trail) && moved == Edges(trail)
      requires InTable(action) && action !in trail
      requires forall s, a :: InTable(s) && InTable(a) && (s, a) !in moved ==> q[s, a] == old(q[s, a])
      ensures q[trail[|trail| - 1], action] == old(q[trail[|trail| - 1], action])
      ensures NextMax(action, end, demand, visited) == old(NextMax(action, end, demand, visited))
    {
      NoEdgeLeaves(trail, trail[|trail| - 1]);
      NoEdgeLeaves(trail, action);
      NextMaxKeepsRow(action, end, demand, visited);
    }

    /** The trail of an episode continued from the partial trail `path`
        against a fixed table, with the draw cursor at k and at most `steps`
        moves left, and the cursor after it. It stops at the end node or when
        no unvisited valid action remains; otherwise it explores when the
        draw falls below eps (a second draw picks uniformly among the
        unvisited valid actions) and exploits otherwise (the first of them
        with the largest Q value). */
    function EpisodeWalk(path: seq<int>, end: int, demand: real, eps: real, draws: Draws, k: nat, steps: nat): (walk: (seq<int>, nat))
      reads q
      requires Shaped() && Indexed(g) && UnitDraws(draws) && path != [] && InTable(path[|path| - 1])
      decreases steps
    {
      var current := path[|path| - 1];
      if steps == 0 || current == end then (path, k)
      else
        var actions := Fresh(g, current, demand, Elems(path));
        FreshInTable(g, current, demand, Elems(path));
        if actions == [] then (path, k)
        else if draws(k) < eps then
          EpisodeWalk(path + [actions[Pick(draws(k + 1), |actions|)]], end, demand, eps, draws, k + 2, steps - 1)
        else
          EpisodeWalk(path + [actions[Greedy(current, actions)]], end, demand, eps, draws, k + 1, steps - 1)
    }

    /** One move of EpisodeWalk on the table as it was in the old state. */
    twostate lemma OldWalkStep(path: seq<int>, new end: int, new demand: real, new eps: real, new draws: Draws, new k: nat, new steps: nat, new rest: nat)
      requires Shaped() && Indexed(g) && UnitDraws(draws) && path != [] && InTable(path[|path| - 1])
      requires steps == rest + 1 && path[|path| - 1] != end && Fresh(g, path[|path| - 1], demand, Elems(path)) != []
      ensures AllInTable(Fresh(g, path[|path| - 1], demand, Elems(path)))
      ensures var actions := Fresh(g, path[|path| - 1], demand, Elems(path));
        old(EpisodeWalk(path, end, demand, eps, draws, k, steps)) ==
          if draws(k) < eps then
            old(EpisodeWalk(path + [actions[Pick(draws(k + 1), |actions|)]], end, demand, eps, draws, k + 2, rest))
          else
            old(EpisodeWalk(path + [actions[Greedy(path[|path| - 1], actions)]], end, demand, eps, draws, k + 1, rest))
    {
      var actions := Fresh(g, path[|path| - 1], demand, Elems(path));
      FreshInTable(g, path[|path| - 1], demand, Elems(path));
      assert steps - 1 == rest;
      assert old(EpisodeWalk(path, end, demand, eps, draws, k, steps)) ==
        if draws(k) < eps then
          old(EpisodeWalk(path + [actions[Pick(draws(k + 1), |actions|)]], end, demand, eps, draws, k + 2, steps - 1))
        else
          old(EpisodeWalk(path + [actions[Greedy(path[|path| - 1], actions)]], end, demand, eps, draws, k + 1, steps - 1));
    }

    /** The value an episode along trail writes into the cell of its hop i:
        the old value blended towards the reward of the hop plus gamma times
        next_max from its head, all read in the old table. */
    twostate function HopUpdate(trail: seq<int>, new i: int, new start: int, new end: int, new demand: real): real
      requires Shaped() && Indexed(g) && AllInTable(trail) && 0 <= i < |trail| - 1
    {
      Blend(old(q[trail[i], trail[i + 1]]),
        Reward(g, negLn, w, trail[i], trail[i + 1], start, end) +
        Gamma * old(NextMax(trail[i + 1], end, demand, Elems(trail[..i + 1]))), Alpha)
    }

    /** target[i] is the value the episode writes into the cell of hop i. */
    twostate predicate Targets(trail: seq<int>, new target: seq<real>, new start: int, new end: int, new demand: real)
      requires Shaped() && Indexed(g) && AllInTable(trail) && |target| == |trail| - 1
    {
      forall i :: 0 <= i < |target| ==> target[i] == HopUpdate(trail, i, start, end, demand)
    }

    /** Moving on from the tip `state` to `action` adds the target t of the
        new hop. */
    twostate lemma TargetsExtend(trail: seq<int>, new target: seq<real>, new state: int, new action: int, new start: int, new end: int, new demand: real, new visited: set<int>)
      returns (t: real)
      requires Shaped() && Indexed(g) && AllInTable(trail) && |trail| >= 1 && InTable(action) && |target| == |trail| - 1
      requires state == trail[|trail| - 1] && visited == Elems(trail)
      requires Targets(trail, target, start, end, demand)
      ensures t == Blend(old(q[state, action]),
        Reward(g, negLn, w, state, action, start, end) + Gamma * old(NextMax(action, end, demand, visited)), Alpha)
      ensures AllInTable(trail + [action]) && Targets(trail + [action], target + [t], start, end, demand)
    {
      t := Blend(old(q[state, action]),
        Reward(g, negLn, w, state, action, start, end) + Gamma * old(NextMax(action, end, demand, visited)), Alpha);
      var p := trail + [action];
      assert p[..|trail|] == trail && p[|trail| - 1] == state && p[|trail|] == action;
      assert HopUpdate(p, |target|, start, end, demand) == t;
      forall i | 0 <= i < |target| ensures (target + [t])[i] == HopUpdate(p, i, start, end, demand) {
        assert p[i] == trail[i] && p[i + 1] == trail[i + 1] && p[..i + 1] == trail[..i + 1];
        assert (target + [t])[i] == target[i];
      }
    }

    /** A write to the cell of a new last hop keeps the earlier hops' cells
        at their targets: on a trail without repeated nodes no earlier hop
        leaves the tip. */
    twostate lemma HopsKept(hops: seq<int>, new targets: seq<real>, new action: int, new t: real)
      requires Shaped() && AllInTable(hops) && |hops| >= 1 && Distinct(hops) && InTable(action) && |targets| == |hops| - 1
      requires forall i :: 0 <= i < |hops| - 1 ==> old(q[hops[i], hops[i + 1]]) == targets[i]
      requires forall s, a :: 0 <= s < TableSize && 0 <= a < TableSize && (s != hops[|hops| - 1] || a != action) ==>
        q[s, a] == old(q[s, a])
      requires q[hops[|hops| - 1], action] == t
      ensures forall i :: 0 <= i < |hops| ==> (hops + [action])[i] == hops[i]
      ensures forall i :: 0 <= i < |hops| ==>
        q[(hops + [action])[i], (hops + [action])[i + 1]] == (targets + [t])[i]
    {
      var p := hops + [action];
      forall i | 0 <= i < |hops| ensures q[p[i], p[i + 1]] == (targets + [t])[i] {
        if i < |hops| - 1 {
          assert p[i] == hops[i] && p[i + 1] == hops[i + 1] && (targets + [t])[i] == targets[i];
          assert hops[i] != hops[|hops| - 1];
        }
      }
    }

    /** The greedy read-out continued from the partial route `path`, whose
        nodes are `visited`, with at most `steps` moves left: it stops at the
        end node or when no unvisited valid action remains, and otherwise
        moves to the first such action of largest Q value. */
    function GreedyWalk(path: seq<int>, visited: set<int>, end: int, demand: real, steps: nat): (walk: seq<int>)
      reads q
      requires Shaped() && Indexed(g) && path != [] && InTable(path[|path| - 1])
      decreases steps
    {
      var current := path[|path| - 1];
      if steps == 0 || current == end then path
      else
        var actions := Fresh(g, current, demand, visited);
        FreshInTable(g, current, demand, visited);
        if actions == [] then path
        else
          var best := actions[Greedy(current, actions)];
          GreedyWalk(path + [best], visited + {best}, end, demand, steps - 1)
    }

    /** Move i of `walk` is the greedy one: among the valid actions of walk[i]
        not yet on walk[..i + 1], the first of largest Q value. */
    ghost predicate GreedyMoveAt(walk: seq<int>, demand: real, i: int)
      reads q
      requires Shaped() && Indexed(g) && 0 <= i < |walk| - 1 && InTable(walk[i])
    {
      var actions := Fresh(g, walk[i], demand, Elems(walk[..i + 1]));
      FreshInTable(g, walk[i], demand, Elems(walk[..i + 1]));
      actions != [] && walk[i + 1] == actions[Greedy(walk[i], actions)]
    }

    /** Appending a node keeps the earlier moves greedy, and the new move is
        greedy when it is the greedy action after the route so far. */
    lemma GreedyMoveExtend(path: seq<int>, demand: real, next: int)
      requires Shaped() && Indexed(g) && AllInTable(path) && InTable(next) && path != []
      requires forall j :: 0 <= j < |path| - 1 ==> GreedyMoveAt(path, demand, j)
      requires var actions := Fresh(g, path[|path| - 1], demand, Elems(path));
        AllInTable(actions) && actions != [] && next == actions[Greedy(path[|path| - 1], actions)]
      ensures AllInTable(path + [next])
      ensures forall j :: 0 <= j < |path| ==> GreedyMoveAt(path + [next], demand, j)
    {
      var p := path + [next];
      forall j | 0 <= j < |path| ensures GreedyMoveAt(p, demand, j) {
        assert p[..j + 1] == path[..j + 1];
        assert p[j] == path[j] && p[j + 1] == (if j < |path| - 1 then path[j + 1] else next);
        if j < |path| - 1 {
          assert GreedyMoveAt(path, demand, j);
        } else {
          assert path[..j + 1] == path;
        }
      }
    }

    /** get_best_path: follow the first unvisited valid action of largest Q
        value for at most 100 moves, stopping at the end node and giving up
        (returning the partial path) at a dead end. The result is the greedy
        read-out from start, and it is a trail that stopped for one of the
        three reasons. */
    method GetBestPath(start: int, end: int, demand: real) returns (path: seq<int>)
      requires Shaped() && InTable(start) && Indexed(g)
      ensures path == GreedyWalk([start], {start}, end, demand, MaxSteps)
      ensures |path| <= MaxSteps + 1 && Trail(g, start, end, demand, path) && Finished(g, end, demand, path)
      ensures AllInTable(path) && forall i :: 0 <= i < |path| - 1 ==> GreedyMoveAt(path, demand, i)
    {
      path := [start];
      var current := start;
      var visited := {start};
      assert Elems(path) == {start};
      ghost var left: nat := MaxSteps;
      var i := 0;
      while i < MaxSteps
        invariant 0 <= i <= MaxSteps && left == MaxSteps - i && |path| == i + 1 && InTable(current)
        invariant Trail(g, start, end, demand, path)
        invariant current == path[|path| - 1] && visited == Elems(path)
        invariant GreedyWalk(path, visited, end, demand, left) == GreedyWalk([start], {start}, end, demand, MaxSteps)
        invariant AllInTable(path) && forall j :: 0 <= j < |path| - 1 ==> GreedyMoveAt(path, demand, j)
      {
        if current == end {
          return;
        }
        var unvisited := Fresh(g, current, demand, visited);
        FreshInTable(g, current, demand, visited);
        if unvisited == [] {
          break;
        }
        var best := unvisited[Greedy(current, unvisited)];
        assert best in unvisited;
        TrailStep(g, start, end, demand, path, best);
        GreedyMoveExtend(path, demand, best);
        path := path + [best];
        visited := visited + {best};
        current := best;
        i := i + 1;
        left := left - 1;
      }
    }

    /** One Q update: only Q[state, action] changes, to
        (1 - alpha)·old + alpha·(reward + gamma·next_max), with next_max read
        before the write. */
    method Learn(state: int, action: int, start: int, end: int, demand: real, visited: set<int>)
      requires Shaped() && InTable(state) && InTable(action) && Indexed(g)
      modifies q
      ensures q[state, action] == Blend(old(q[state, action]),
        Reward(g, negLn, w, state, action, start, end) + Gamma * old(NextMax(action, end, demand, visited)), Alpha)
      ensures forall s, a :: 0 <= s < TableSize && 0 <= a < TableSize && (s != state || a != action) ==>
        q[s, a] == old(q[s, a])
    {
      var cost := StepCost(g, negLn, w, state, action, start);
      var reward := if action == end then GoalReward else -cost;
      var nextMax := NextMax(action, end, demand, visited);
      var oldValue := q[state, action];
      q[state, action] := (1.0 - Alpha) * oldValue + Alpha * (reward + Gamma * nextMax);
    }

    /** The end-of-episode decay: epsilon shrinks by 0.994 while above
        epsilon_min and stays within (0, 1]. */
    method Decay()
      requires Valid()
      modifies this
      ensures Valid() && epsilon == DecayOnce(old(epsilon)) && epsilon <= old(epsilon)
    {
      if epsilon > EpsilonMin {
        epsilon := epsilon * EpsilonDecay;
      }
    }

    /** One training episode from start: at most 100 moves along a trail;
        each move explores (a uniformly drawn unvisited valid action) when the
        draw falls below epsilon and exploits (the greedy action) otherwise,
        then updates the Q value of that move. The trail and the cursor are
        EpisodeWalk's on the table as it was before the episode; the ghost
        `moved` holds the cells updated, one per move of the trail. Each such
        cell is blended towards the reward plus gamma times next_max, both
        read from the table before the episode: no move reads a cell written
        earlier in the same episode, since the trail visits no node twice.
        No other cell changes. */
    method Episode(start: int, end: int, demand: real, draws: Draws, k0: nat)
      returns (k: nat, ghost trail: seq<int>, ghost moved: set<(int, int)>)
      requires Valid() && InTable(start) && Indexed(g) && UnitDraws(draws)
      modifies q
      ensures (trail, k) == old(EpisodeWalk([start], end, demand, epsilon, draws, k0, MaxSteps))
      ensures |trail| <= MaxSteps + 1 && Trail(g, start, end, demand, trail) && Finished(g, end, demand, trail)
      ensures AllInTable(trail) && moved == Edges(trail) && ValidMoves(g, demand, moved)
      ensures forall i :: 0 <= i < |trail| - 1 ==> q[trail[i], trail[i + 1]] == HopUpdate(trail, i, start, end, demand)
      ensures forall s, a :: InTable(s) && InTable(a) && (s, a) !in moved ==> q[s, a] == old(q[s, a])
    {
      var state := start;
      var steps := 0;
      var visited := {start};
      k := k0;
      trail, moved := [start], {};
      assert Elems(trail) == {start};
      ghost var left: nat := MaxSteps;
      ghost var target: seq<real> := [];
      while state != end && steps < MaxSteps
        invariant 0 <= steps <= MaxSteps && left + steps == MaxSteps && |trail| == steps + 1
        invariant Trail(g, start, end, demand, trail) && InTable(state) && AllInTable(trail)
        invariant state == trail[|trail| - 1] && visited == Elems(trail)
        invariant old(EpisodeWalk(trail, end, demand, epsilon, draws, k, left)) ==
          old(EpisodeWalk([start], end, demand, epsilon, draws, k0, MaxSteps))
        invariant moved == Edges(trail) && ValidMoves(g, demand, moved)
        invariant |target| == |trail| - 1 && Targets(trail, target, start, end, demand)
        invariant forall i :: 0 <= i < |trail| - 1 ==> q[trail[i], trail[i + 1]] == target[i]
        invariant forall s, a :: InTable(s) && InTable(a) && (s, a) !in moved ==> q[s, a] == old(q[s, a])
        decreases MaxSteps - steps
      {
        steps := steps + 1;
        var actions := Fresh(g, state, demand, visited);
        FreshInTable(g, state, demand, visited);
        if actions == [] {
          break;
        }
        ghost var before := left;
        left := left - 1;
        OldWalkStep(trail, end, demand, epsilon, draws, k, before, left);
        var action;
        if draws(k) < epsilon {
          action := actions[Pick(draws(k + 1), |actions|)];
          k := k + 2;
        } else {
          TipGreedyKept(trail, moved, actions);
          action := actions[Greedy(state, actions)];
          k := k + 1;
        }
        assert action in actions;
        MoveKept(trail, moved, action, end, demand, visited);
        ghost var t := TargetsExtend(trail, target, state, action, start, end, demand, visited);
        label BeforeLearn:
        Learn(state, action, start, end, demand, visited);
        HopsKept@BeforeLearn(trail, target, action, t);
        TrailStep(g, start, end, demand, trail, action);
        EdgesAppend(trail, action);
        trail, target := trail + [action], target + [t];
        moved := moved + {(state, action)};
        visited := visited + {action};
        state := action;
      }
    }

    /** train: the given number of episodes, each followed by the epsilon
        decay. Epsilon ends as the decay of its old value over the episodes,
        and only Q values of the moves of the episodes' trails (the ghost
        `moved`) change. */
    method Train(start: int, end: int, demand: real, episodes: nat, draws: Draws, k0: nat)
      returns (k: nat, ghost trails: seq<seq<int>>, ghost moved: set<(int, int)>)
      requires Valid() && InTable(start) && Indexed(g) && UnitDraws(draws)
      modifies this, q
      ensures Valid() && epsilon == Decayed(old(epsilon), episodes)
      ensures |trails| == episodes
      ensures forall i :: 0 <= i < |trails| ==>
        Trail(g, start, end, demand, trails[i]) && Finished(g, end, demand, trails[i])
      ensures moved == Moves(trails) && ValidMoves(g, demand, moved)
      ensures forall s, a :: InTable(s) && InTable(a) && (s, a) !in moved ==> q[s, a] == old(q[s, a])
    {
      k, trails, moved := k0, [], {};
      for e := 0 to episodes
        invariant Valid() && Decayed(epsilon, episodes - e) == Decayed(old(epsilon), episodes)
        invariant |trails| == e
        invariant forall i :: 0 <= i < |trails| ==>
          Trail(g, start, end, demand, trails[i]) && Finished(g, end, demand, trails[i])
        invariant moved == Moves(trails) && ValidMoves(g, demand, moved)
        invariant forall s, a :: InTable(s) && InTable(a) && (s, a) !in moved ==> q[s, a] == old(q[s, a])
      {
        ghost var trail, cells;
        k, trail, cells := Episode(start, end, demand, draws, k);
        MovesAppend(trails, trail);
        trails, moved := trails + [trail], moved + cells;
        Decay();
      }
    }
  }
}
