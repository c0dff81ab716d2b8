/** The graph model of network_module.py: vertex and link records, the
    adjacency lookups, the per-row edge insertion that keeps adjacency
    symmetric, and the shared path evaluator `calculate_metrics` with its
    weighted total. The graph is an immutable value; only the loader
    (GraphStore) updates tables in place. */
module Network {
  import opened Common

  datatype Vertex = Vertex(processingDelay: real, reliability: real)
  datatype Link = Link(bandwidth: real, delay: real, reliability: real)

  /** One adjacency entry `(neighbor_id, Edge)`. */
  datatype Entry = Entry(neighbor: int, link: Link)

  /** `Graph.vertices` and `Graph.adj_list`. */
  datatype Graph = Graph(vertices: map<int, Vertex>, adj: map<int, seq<Entry>>)

  /** The QoS weight triple (W_delay, W_reliability, W_resource). */
  datatype Weights = Weights(delay: real, reliability: real, resource: real)

  /** The three metrics of a link or a path. */
  datatype Metrics = Metrics(delay: real, reliability: real, resource: real)

  const MaxBandwidth: real := 1000.0

  /** The cost charged instead of `-log(r)` when a reliability is not positive. */
  const UnreliableCost: real := 999.0

  const NoCost: Metrics := Metrics(0.0, 0.0, 0.0)

  function Plus(a: Metrics, b: Metrics): Metrics {
    Metrics(a.delay + b.delay, a.reliability + b.reliability, a.resource + b.resource)
  }

  /** The weighted sum `W_delay * delay + W_reliability * rel + W_resource * res`. */
  function Combine(w: Weights, m: Metrics): real {
    w.delay * m.delay + w.reliability * m.reliability + w.resource * m.resource
  }

  /** Non-negative weights of non-negative metrics give a non-negative cost. */
  lemma CombineNonneg(w: Weights, m: Metrics)
    requires w.delay >= 0.0 && w.reliability >= 0.0 && w.resource >= 0.0
    requires m.delay >= 0.0 && m.reliability >= 0.0 && m.resource >= 0.0
    ensures Combine(w, m) >= 0.0
  {
    MulNonneg(w.delay, m.delay);
    MulNonneg(w.reliability, m.reliability);
    MulNonneg(w.resource, m.resource);
  }

  // ---------------------------------------------------------------- lookups

  /** The adjacency list of u, or [] when u has none (`adj_list.get(u, [])`). */
  function Entries(g: Graph, u: int): seq<Entry> {
    if u in g.adj then g.adj[u] else []
  }

  /** The index of the first entry at or after i whose neighbour is v, or |es|. */
  function FirstEntryTo(es: seq<Entry>, v: int, i: nat): (k: nat)
    requires i <= |es|
    ensures i <= k <= |es|
    ensures k < |es| ==> es[k].neighbor == v
    decreases |es| - i
  {
    if i == |es| then i else if es[i].neighbor == v then i else FirstEntryTo(es, v, i + 1)
  }

  /** No entry between i and the one FirstEntryTo finds leads to v. */
  lemma {:induction false} FirstEntryToSkips(es: seq<Entry>, v: int, i: nat)
    requires i <= |es|
    ensures forall j :: i <= j < FirstEntryTo(es, v, i) ==> es[j].neighbor != v
    decreases |es| - i
  {
    if i < |es| && es[i].neighbor != v {
      FirstEntryToSkips(es, v, i + 1);
    }
  }

  /** get_link_info: the link of the FIRST entry of u's list whose neighbour is v;
      None (the source's (None, None, None)) when u has no list or no such entry. */
  function GetLinkInfo(g: Graph, u: int, v: int): Option<Link> {
    var es := Entries(g, u);
    var i := FirstEntryTo(es, v, 0);
    if i < |es| then Some(es[i].link) else None
  }

  /** get_link_info finds nothing exactly when no entry of u leads to v, and
      otherwise reports the link of the first entry that does. */
  lemma GetLinkInfoFirst(g: Graph, u: int, v: int)
    ensures GetLinkInfo(g, u, v).None? <==> forall i :: 0 <= i < |Entries(g, u)| ==> Entries(g, u)[i].neighbor != v
    ensures GetLinkInfo(g, u, v).Some? ==> (
      exists i :: 0 <= i < |Entries(g, u)| &&
        Entries(g, u)[i] == Entry(v, GetLinkInfo(g, u, v).value) &&
        forall j :: 0 <= j < i ==> Entries(g, u)[j].neighbor != v)
  {
    FirstEntryToSkips(Entries(g, u), v, 0);
  }

  /** get_neighbors: the neighbour ids of u in adjacency order, [] for an unknown vertex. */
  function GetNeighbors(g: Graph, u: int): (ns: seq<int>)
    ensures |ns| == |Entries(g, u)|
    ensures forall i :: 0 <= i < |ns| ==> ns[i] == Entries(g, u)[i].neighbor
  {
    var es := Entries(g, u);
    seq(|es|, i requires 0 <= i < |es| => es[i].neighbor)
  }

  /** A vertex is listed as a neighbour of u exactly when get_link_info finds a link. */
  lemma NeighborIffLink(g: Graph, u: int, v: int)
    ensures v in GetNeighbors(g, u) <==> GetLinkInfo(g, u, v).Some?
  {
    var ns := GetNeighbors(g, u);
    FirstEntryToSkips(Entries(g, u), v, 0);
    if v in ns {
      var i :| 0 <= i < |ns| && ns[i] == v;
      assert Entries(g, u)[i].neighbor == v;
    }
    if GetLinkInfo(g, u, v).Some? {
      var i :| 0 <= i < |Entries(g, u)| && Entries(g, u)[i].neighbor == v;
      assert ns[i] == v;
    }
  }

  /** An edge is admissible for a demand when its bandwidth, as get_link_info
      reports it, is at least the demand. */
  predicate Admissible(g: Graph, u: int, v: int, demand: real) {
    var l := GetLinkInfo(g, u, v);
    l.Some? && l.value.bandwidth >= demand
  }

  // ---------------------------------------------------------------- paths

  /** Hop i of p (from p[i] to p[i + 1]) follows an adjacency entry. */
  predicate AlongAt(g: Graph, p: seq<int>, i: int)
    requires 0 <= i < |p| - 1
  {
    p[i + 1] in GetNeighbors(g, p[i])
  }

  /** Every hop of p follows an adjacency entry. */
  predicate Along(g: Graph, p: seq<int>) {
    forall i :: 0 <= i < |p| - 1 ==> AlongAt(g, p, i)
  }

  /** Hop i of p is an admissible edge for the demand. */
  predicate AdmissibleAt(g: Graph, p: seq<int>, i: int, demand: real)
    requires 0 <= i < |p| - 1
  {
    Admissible(g, p[i], p[i + 1], demand)
  }

  /** Every hop of p is an admissible edge for the demand. */
  predicate AdmissiblePath(g: Graph, p: seq<int>, demand: real) {
    forall i :: 0 <= i < |p| - 1 ==> AdmissibleAt(g, p, i, demand)
  }

  /** p starts at s, ends at t and repeats no node. */
  predicate Route(p: seq<int>, s: int, t: int) {
    |p| >= 1 && p[0] == s && p[|p| - 1] == t && Distinct(p)
  }

  /** A directed edge (u, v). */
  type Edge = (int, int)

  /** The directed edge of hop i of a path. */
  function Hop(path: seq<int>, i: nat): Edge
    requires i + 1 < |path|
  {
    (path[i], path[i + 1])
  }

  /** The number of hops of a path (`range(len(path) - 1)`). */
  function Hops(path: seq<int>): nat {
    if |path| < 2 then 0 else |path| - 1
  }

  /** The directed edges of the first n hops of a path. */
  function EdgesUpTo(path: seq<int>, n: nat): set<Edge>
    requires n <= Hops(path)
  {
    set i | 0 <= i < n :: Hop(path, i)
  }

  function Edges(path: seq<int>): set<Edge> {
    EdgesUpTo(path, Hops(path))
  }

  lemma EdgesAppend(path: seq<int>, x: int)
    requires |path| >= 1
    ensures Edges(path + [x]) == Edges(path) + {(path[|path| - 1], x)}
  {
    var p := path + [x];
    forall e | e in Edges(p) ensures e in Edges(path) + {(path[|path| - 1], x)} {
      var i :| 0 <= i < Hops(p) && e == Hop(p, i);
      if i < |path| - 1 {
        assert e == Hop(path, i);
      }
    }
    assert Hop(p, |path| - 1) in Edges(p);
    forall e | e in Edges(path) ensures e in Edges(p) {
      var i :| 0 <= i < Hops(path) && e == Hop(path, i);
      assert e == Hop(p, i);
    }
  }

  // ---------------------------------------------------------------- well-formed graphs

  predicate LinkOk(l: Link) {
    l.bandwidth > 0.0 && l.delay >= 0.0 && 0.0 < l.reliability <= 1.0
  }

  /** The data model's value ranges: processing delays and link delays are not
      negative, reliabilities lie in (0, 1], bandwidths are positive. */
  ghost predicate WellFormed(g: Graph) {
    && (forall u :: u in g.vertices ==>
          g.vertices[u].processingDelay >= 0.0 && 0.0 < g.vertices[u].reliability <= 1.0)
    && (forall u, i :: u in g.adj && 0 <= i < |g.adj[u]| ==> LinkOk(g.adj[u][i].link))
  }

  lemma FoundLinkOk(g: Graph, u: int, v: int)
    requires WellFormed(g) && GetLinkInfo(g, u, v).Some?
    ensures LinkOk(GetLinkInfo(g, u, v).value)
  {
    var l := GetLinkInfo(g, u, v).value;
    var i :| 0 <= i < |Entries(g, u)| && Entries(g, u)[i] == Entry(v, l);
    assert u in g.adj;
    assert g.adj[u][i].link == l;
  }

  // ---------------------------------------------------------------- loading

  /** The list stored under x, or [] when there is none yet. */
  function ListOf(adj: map<int, seq<Entry>>, x: int): seq<Entry> {
    if x in adj then adj[x] else []
  }

  /** One edge row of the loader: append (v, link) to u's list, then (u, link)
      to v's list, creating either list first when missing. */
  function WithEdge(adj: map<int, seq<Entry>>, u: int, v: int, l: Link): map<int, seq<Entry>> {
    var once := adj[u := ListOf(adj, u) + [Entry(v, l)]];
    once[v := ListOf(once, v) + [Entry(u, l)]]
  }

  /** Every directed entry u -> (v, link) has a mirror entry v -> (u, link). */
  ghost predicate Symmetric(adj: map<int, seq<Entry>>) {
    forall u, i :: u in adj && 0 <= i < |adj[u]| ==> Mirrored(adj, u, adj[u][i])
  }

  /** The entry e of u's list has its mirror image in e's neighbour's list. */
  ghost predicate Mirrored(adj: map<int, seq<Entry>>, u: int, e: Entry) {
    e.neighbor in adj && Entry(u, e.link) in adj[e.neighbor]
  }

  /** Inserting a row only appends to the lists it touches. */
  lemma WithEdgeExtends(adj: map<int, seq<Entry>>, u: int, v: int, l: Link)
    ensures var adj' := WithEdge(adj, u, v, l);
      adj'.Keys == adj.Keys + {u, v} &&
      forall x :: x in adj ==> |adj[x]| <= |adj'[x]| && adj'[x][..|adj[x]|] == adj[x]
  {
  }

  /** A mirror image present before an insertion is still present after it. */
  lemma WithEdgeKeepsMirror(adj: map<int, seq<Entry>>, u: int, v: int, l: Link, x: int, e: Entry)
    requires Mirrored(adj, x, e)
    ensures Mirrored(WithEdge(adj, u, v, l), x, e)
  {
    var grown := WithEdge(adj, u, v, l);
    WithEdgeExtends(adj, u, v, l);
    var y := e.neighbor;
    var j :| 0 <= j < |adj[y]| && adj[y][j] == Entry(x, e.link);
    assert grown[y][..|adj[y]|] == adj[y];
    assert grown[y][j] == Entry(x, e.link);
  }

  /** The entries an insertion appends are mirror images of each other. */
  lemma WithEdgeMirrorsNew(adj: map<int, seq<Entry>>, u: int, v: int, l: Link, x: int, i: int)
    requires x in WithEdge(adj, u, v, l) && |ListOf(adj, x)| <= i < |WithEdge(adj, u, v, l)[x]|
    ensures Mirrored(WithEdge(adj, u, v, l), x, WithEdge(adj, u, v, l)[x][i])
  {
    var grown := WithEdge(adj, u, v, l);
    if x == u && x == v {
      assert grown[x] == ListOf(adj, u) + [Entry(v, l)] + [Entry(u, l)];
      assert grown[x][i] == Entry(u, l);
      assert grown[x][|grown[x]| - 1] == Entry(u, l);
    } else if x == u {
      assert grown[u] == ListOf(adj, u) + [Entry(v, l)];
      assert grown[v] == ListOf(adj, v) + [Entry(u, l)];
      assert grown[v][|grown[v]| - 1] == Entry(u, l);
    } else {
      assert x == v;
      assert grown[v] == ListOf(adj, v) + [Entry(u, l)];
      assert grown[u] == ListOf(adj, u) + [Entry(v, l)];
      assert grown[u][|grown[u]| - 1] == Entry(v, l);
    }
  }

  /** Inserting an edge row keeps the adjacency symmetric. */
  lemma {:induction false} WithEdgeKeepsSymmetric(adj: map<int, seq<Entry>>, u: int, v: int, l: Link)
    requires Symmetric(adj)
    ensures Symmetric(WithEdge(adj, u, v, l))
  {
    var grown := WithEdge(adj, u, v, l);
    WithEdgeExtends(adj, u, v, l);
    forall x: int, i: int | x in grown && 0 <= i < |grown[x]|
      ensures Mirrored(grown, x, grown[x][i])
    {
      if i < |ListOf(adj, x)| {
        assert x in adj;
        assert grown[x][..|adj[x]|] == adj[x];
        assert grown[x][i] == adj[x][i];
        assert Mirrored(adj, x, adj[x][i]);
        WithEdgeKeepsMirror(adj, u, v, l, x, adj[x][i]);
      } else {
        WithEdgeMirrorsNew(adj, u, v, l, x, i);
      }
    }
  }

  /** In a list whose prefix has no entry to v, the first entry to v is the one after it. */
  lemma {:induction false} FirstEntryAfter(pre: seq<Entry>, post: seq<Entry>, v: int, l: Link)
    requires forall i :: 0 <= i < |pre| ==> pre[i].neighbor != v
    ensures FirstEntryTo(pre + [Entry(v, l)] + post, v, 0) == |pre|
  {
    var es := pre + [Entry(v, l)] + post;
    FirstEntryToSkips(es, v, 0);
    assert es[|pre|].neighbor == v;
    assert forall i :: 0 <= i < |pre| ==> es[i] == pre[i];
  }

  /** Looking an inserted edge up finds its link in both directions, provided
      no earlier entry already joined the two vertices. */
  lemma LookupAfterInsert(vs: map<int, Vertex>, adj: map<int, seq<Entry>>, u: int, v: int, l: Link)
    requires GetLinkInfo(Graph(vs, adj), u, v).None? && GetLinkInfo(Graph(vs, adj), v, u).None?
    ensures GetLinkInfo(Graph(vs, WithEdge(adj, u, v, l)), u, v) == Some(l)
    ensures GetLinkInfo(Graph(vs, WithEdge(adj, u, v, l)), v, u) == Some(l)
  {
    var g, g' := Graph(vs, adj), Graph(vs, WithEdge(adj, u, v, l));
    GetLinkInfoFirst(g, u, v);
    GetLinkInfoFirst(g, v, u);
    assert Entries(g, u) == ListOf(adj, u) && Entries(g, v) == ListOf(adj, v);
    if u == v {
      assert Entries(g', u) == ListOf(adj, u) + [Entry(v, l)] + [Entry(u, l)];
      FirstEntryAfter(ListOf(adj, u), [Entry(u, l)], v, l);
    } else {
      assert Entries(g', u) == ListOf(adj, u) + [Entry(v, l)] + [];
      assert Entries(g', v) == ListOf(adj, v) + [Entry(u, l)] + [];
      FirstEntryAfter(ListOf(adj, u), [], v, l);
      FirstEntryAfter(ListOf(adj, v), [], u, l);
    }
  }

  /** The loader's tables (`Graph.vertices`, `Graph.vertices_id`, `Graph.adj_list`),
      updated in place by add_vertex and by the edge rows of add_edges. */
  class GraphStore {
    var vertices: map<int, Vertex>
    var vertexIds: map<int, seq<int>>
    var adj: map<int, seq<Entry>>

    /** GenerateGraph.generate starts from empty tables. */
    constructor ()
      ensures vertices == map[] && vertexIds == map[] && adj == map[]
    {
      vertices, vertexIds, adj := map[], map[], map[];
    }

    function Snapshot(): Graph
      reads this
    {
      Graph(vertices, adj)
    }

    /** add_vertex: records a vertex only when its id is new. */
    method AddVertex(id: int, processingDelay: real, reliability: real)
      modifies this
      ensures id in old(vertices) ==> vertices == old(vertices) && vertexIds == old(vertexIds)
      ensures id !in old(vertices) ==>
        vertices == old(vertices)[id := Vertex(processingDelay, reliability)] &&
        vertexIds == old(vertexIds)[id := []]
      ensures adj == old(adj)
    {
      if id !in vertices {
        vertices := vertices[id := Vertex(processingDelay, reliability)];
        vertexIds := vertexIds[id := []];
      }
    }

    /** One row of add_edges: the link goes into both adjacency lists. */
    method AddEdgeRow(u: int, v: int, bandwidth: real, delay: real, reliability: real)
      modifies this
      ensures adj == WithEdge(old(adj), u, v, Link(bandwidth, delay, reliability))
      ensures Symmetric(old(adj)) ==> Symmetric(adj)
      ensures vertices == old(vertices) && vertexIds == old(vertexIds)
    {
      var link := Link(bandwidth, delay, reliability);
      var lists := adj;
      if u !in lists { lists := lists[u := []]; }
      if v !in lists { lists := lists[v := []]; }
      ghost var once := adj[u := ListOf(adj, u) + [Entry(v, link)]];
      lists := lists[u := lists[u] + [Entry(v, link)]];
      assert ListOf(once, v) == lists[v];
      lists := lists[v := lists[v] + [Entry(u, link)]];
      adj := lists;
      if Symmetric(old(adj)) {
        WithEdgeKeepsSymmetric(old(adj), u, v, link);
      }
    }
  }

  // ---------------------------------------------------------------- calculate_metrics

  /** `-np.log(r) if r > 0 else 999`. */
  function RelCost(negLn: NegLog, r: real): real {
    if r > 0.0 then negLn(r) else UnreliableCost
  }

  /** Hop i stops calculate_metrics: no link (it returns None) or a zero
      bandwidth (1000 / bw raises ZeroDivisionError). */
  predicate NetHopStops(g: Graph, path: seq<int>, i: nat)
    requires i + 1 < |path|
  {
    var l := GetLinkInfo(g, path[i], path[i + 1]);
    l.None? || l.value.bandwidth == 0.0
  }

  /** The first hop at or after i that stops calculate_metrics, or |path| - 1. */
  function NetFirstStop(g: Graph, path: seq<int>, i: nat): (k: nat)
    requires i < |path|
    ensures i <= k < |path|
    ensures forall j :: i <= j < k ==> !NetHopStops(g, path, j)
    ensures k < |path| - 1 ==> NetHopStops(g, path, k)
    decreases |path| - i
  {
    if i == |path| - 1 then i else if NetHopStops(g, path, i) then i else NetFirstStop(g, path, i + 1)
  }

  /** NetFirstStop is determined by the two facts that characterise it. */
  lemma NetFirstStopIs(g: Graph, path: seq<int>, k: nat)
    requires k < |path|
    requires forall j :: 0 <= j < k ==> !NetHopStops(g, path, j)
    requires k < |path| - 1 ==> NetHopStops(g, path, k)
    ensures NetFirstStop(g, path, 0) == k
  {
  }

  /** The origin of hop i is charged its own costs: it is a known vertex that
      is neither path[0] nor path[-1] (compared by id, as the source does). */
  predicate ChargedOrigin(g: Graph, path: seq<int>, i: nat)
    requires i < |path|
  {
    path[i] != path[0] && path[i] != path[|path| - 1] && path[i] in g.vertices
  }

  /** What hop i adds to the three running totals. */
  function NetHop(g: Graph, negLn: NegLog, path: seq<int>, i: nat): Metrics
    requires i + 1 < |path| && !NetHopStops(g, path, i)
  {
    var l := GetLinkInfo(g, path[i], path[i + 1]).value;
    var linkPart := Metrics(l.delay, RelCost(negLn, l.reliability), MaxBandwidth / l.bandwidth);
    if ChargedOrigin(g, path, i) then
      var x := g.vertices[path[i]];
      Plus(linkPart, Metrics(x.processingDelay, RelCost(negLn, x.reliability), 0.0))
    else
      linkPart
  }

  /** The totals over the first n hops. */
  function NetSum(g: Graph, negLn: NegLog, path: seq<int>, n: nat): Metrics
    requires n < |path|
    requires forall i :: 0 <= i < n ==> !NetHopStops(g, path, i)
  {
    if n == 0 then NoCost else Plus(NetSum(g, negLn, path, n - 1), NetHop(g, negLn, path, n - 1))
  }

  /** The outcome of calculate_metrics: the totals, the None of a broken path,
      or an exception. */
  datatype Measurement = Measured(metrics: Metrics) | Disconnected | Raised(fault: Fault)

  /** calculate_metrics as a value: the first hop that stops the loop decides
      the failure; otherwise the totals over every hop. */
  function NetMetrics(g: Graph, negLn: NegLog, path: seq<int>): Measurement {
    if |path| == 0 then Raised(EmptyPath)
    else
      var k := NetFirstStop(g, path, 0);
      if k == |path| - 1 then Measured(NetSum(g, negLn, path, k))
      else if GetLinkInfo(g, path[k], path[k + 1]).None? then Disconnected
      else Raised(DivisionByZero)
  }

  /** calculate_metrics: one pass over the hops accumulating the three totals. */
  method CalculateMetrics(g: Graph, negLn: NegLog, path: seq<int>) returns (r: Measurement)
    ensures r == NetMetrics(g, negLn, path)
  {
    if |path| == 0 {
      return Raised(EmptyPath);
    }
    var totalDelay, reliabilityCost, resourceCost := 0.0, 0.0, 0.0;
    var startNode, endNode := path[0], path[|path| - 1];
    for i := 0 to |path| - 1
      invariant forall j :: 0 <= j < i ==> !NetHopStops(g, path, j)
      invariant Metrics(totalDelay, reliabilityCost, resourceCost) == NetSum(g, negLn, path, i)
    {
      var u, v := path[i], path[i + 1];
      var info := GetLinkInfo(g, u, v);
      if info.None? {
        NetFirstStopIs(g, path, i);
        return Disconnected;
      }
      var link := info.value;
      totalDelay := totalDelay + link.delay;
      reliabilityCost := reliabilityCost + RelCost(negLn, link.reliability);
      if link.bandwidth == 0.0 {
        NetFirstStopIs(g, path, i);
        return Raised(DivisionByZero);
      }
      resourceCost := resourceCost + MaxBandwidth / link.bandwidth;
      if u != startNode && u != endNode && u in g.vertices {
        var node := g.vertices[u];
        totalDelay := totalDelay + node.processingDelay;
        reliabilityCost := reliabilityCost + RelCost(negLn, node.reliability);
      }
      assert !NetHopStops(g, path, i);
      assert NetSum(g, negLn, path, i + 1) == Plus(NetSum(g, negLn, path, i), NetHop(g, negLn, path, i));
    }
    NetFirstStopIs(g, path, |path| - 1);
    return Measured(Metrics(totalDelay, reliabilityCost, resourceCost));
  }

  /** calculate_weighted_total_cost: +inf for a broken path, the weighted sum of
      the metrics otherwise; an exception of calculate_metrics propagates. */
  function WeightedTotalCost(g: Graph, negLn: NegLog, path: seq<int>, w: Weights): (r: Result<Cost>)
    ensures r == Ok(Inf) <==> NetMetrics(g, negLn, path) == Disconnected
    ensures r.Err? <==> NetMetrics(g, negLn, path).Raised?
    ensures r.Ok? && r.value.Fin? ==> r.value.amount == Combine(w, NetMetrics(g, negLn, path).metrics)
  {
    match NetMetrics(g, negLn, path)
    case Measured(m) => Ok(Fin(Combine(w, m)))
    case Disconnected => Ok(Inf)
    case Raised(f) => Err(f)
  }

  /** A hop with no link, preceded only by hops that have a link with non-zero
      bandwidth, makes the weighted total cost +inf. */
  lemma BrokenHopCostsInfinity(g: Graph, negLn: NegLog, path: seq<int>, w: Weights, k: nat)
    requires k + 1 < |path|
    requires GetLinkInfo(g, path[k], path[k + 1]).None?
    requires forall j :: 0 <= j < k ==> GetLinkInfo(g, path[j], path[j + 1]).Some? &&
                                        GetLinkInfo(g, path[j], path[j + 1]).value.bandwidth != 0.0
    ensures WeightedTotalCost(g, negLn, path, w) == Ok(Inf)
  {
    NetFirstStopIs(g, path, k);
  }

  /** On a well-formed graph each hop adds non-negative amounts. */
  lemma NetHopNonnegative(g: Graph, negLn: NegLog, path: seq<int>, i: nat)
    requires WellFormed(g) && NegLogNonneg(negLn)
    requires i + 1 < |path| && !NetHopStops(g, path, i)
    ensures var h := NetHop(g, negLn, path, i);
      h.delay >= 0.0 && h.reliability >= 0.0 && h.resource >= 0.0
  {
    FoundLinkOk(g, path[i], path[i + 1]);
    var l := GetLinkInfo(g, path[i], path[i + 1]).value;
    assert RelCost(negLn, l.reliability) >= 0.0;
    QuotientPositive(MaxBandwidth, l.bandwidth);
    if ChargedOrigin(g, path, i) {
      var x := g.vertices[path[i]];
      assert x.processingDelay >= 0.0 && RelCost(negLn, x.reliability) >= 0.0;
    }
  }

  /** On a well-formed graph every total of a measured path is non-negative. */
  lemma {:induction false} NetSumNonnegative(g: Graph, negLn: NegLog, path: seq<int>, n: nat)
    requires WellFormed(g) && NegLogNonneg(negLn)
    requires n < |path|
    requires forall i :: 0 <= i < n ==> !NetHopStops(g, path, i)
    ensures var m := NetSum(g, negLn, path, n);
      m.delay >= 0.0 && m.reliability >= 0.0 && m.resource >= 0.0
  {
    if n > 0 {
      NetSumNonnegative(g, negLn, path, n - 1);
      NetHopNonnegative(g, negLn, path, n - 1);
      assert NetSum(g, negLn, path, n) == Plus(NetSum(g, negLn, path, n - 1), NetHop(g, negLn, path, n - 1));
    }
  }

  lemma NetMetricsNonnegative(g: Graph, negLn: NegLog, path: seq<int>)
    requires WellFormed(g) && NegLogNonneg(negLn)
    requires NetMetrics(g, negLn, path).Measured?
    ensures var m := NetMetrics(g, negLn, path).metrics;
      m.delay >= 0.0 && m.reliability >= 0.0 && m.resource >= 0.0
  {
    NetSumNonnegative(g, negLn, path, |path| - 1);
  }
}
