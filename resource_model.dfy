/**
 The value-level model of a dynamic resource graph: the attributes of nodes and
 edges, the state of the whole graph, and the specification of every operation
 of the class `DynamicResourceGraph` as a function from the old state to the new
 one. The class in module DynamicGraph is proved against these functions; the
 lemmas in module MoveProperties and here state what the functions promise.
 */
module ResourceModel {

  type NodeId = int
  type EdgeKey = (NodeId, NodeId)

  /** Attributes of a node. `maxCapacity` is stored but never enforced. */
  datatype Node = Node(people: int, cars: int, maxCapacity: int)

  /** Attributes of a directed edge. */
  datatype Edge = Edge(maxCapacity: int, currentCapacity: int, distance: int, travelTime: real, flow: int)

  /** The attribute dictionaries of the graph: node id to node, (u, v) to edge. */
  datatype Graph = Graph(nodes: map<NodeId, Node>, edges: map<EdgeKey, Edge>)

  /** The exceptions the operations raise: a KeyError for a missing node or edge,
      and the ValueError of an edge whose capacity went negative. */
  datatype Error =
    | NodeNotFound(node: NodeId)
    | EdgeNotFound(u: NodeId, v: NodeId)
    | CapacityExceeded(u: NodeId, v: NodeId)

  datatype Outcome = Ok | Fail(error: Error)

  /** The state an operation leaves behind, together with how it ended. A failed
      operation is not rolled back: `graph` is the state at the point of failure. */
  datatype After = After(graph: Graph, outcome: Outcome)

  datatype Resource = People | Cars

  function Amount(nd: Node, r: Resource): int
  {
    match r
    case People => nd.people
    case Cars => nd.cars
  }

  // ---------------------------------------------------------------------------
  // Shape of the graph

  predicate IsEdgeKey(e: EdgeKey, n: nat)
  {
    0 <= e.0 < n && 0 <= e.1 < n && e.0 != e.1
  }

  /** Every ordered pair of distinct nodes among 0..n-1: the graph is complete and has no self-loops. */
  function EdgeKeys(n: nat): (s: set<EdgeKey>)
    ensures forall e :: e in s <==> IsEdgeKey(e, n)
  {
    set a, b | 0 <= a < n && 0 <= b < n && a != b :: (a, b)
  }

  /** The shape every graph of the class has: nodes 0..n-1 and one edge per ordered pair of distinct nodes. */
  ghost predicate WellFormed(g: Graph, n: nat)
  {
    && (forall u :: u in g.nodes <==> 0 <= u < n)
    && (forall e :: e in g.edges <==> IsEdgeKey(e, n))
  }

  /** Every edge's remaining capacity is its maximum capacity less its flow. */
  ghost predicate Consistent(edges: map<EdgeKey, Edge>)
  {
    forall e :: e in edges ==> edges[e].currentCapacity == edges[e].maxCapacity - edges[e].flow
  }

  /** `h` has the nodes and edges of `g`, and the attributes no operation rewrites are as in `g`. */
  ghost predicate SameFixed(g: Graph, h: Graph)
  {
    && g.nodes.Keys == h.nodes.Keys
    && g.edges.Keys == h.edges.Keys
    && (forall u :: u in g.nodes ==> h.nodes[u].maxCapacity == g.nodes[u].maxCapacity)
    && (forall e :: e in g.edges ==>
          && h.edges[e].maxCapacity == g.edges[e].maxCapacity
          && h.edges[e].distance == g.edges[e].distance
          && h.edges[e].travelTime == g.edges[e].travelTime)
  }

  /** The sum of resource `r` over the nodes 0..k-1. */
  function Total(nodes: map<NodeId, Node>, r: Resource, k: nat): int
    decreases k
  {
    if k == 0 then 0
    else Total(nodes, r, k - 1) + (if k - 1 in nodes then Amount(nodes[k - 1], r) else 0)
  }

  /** Replacing one node changes the total by exactly the change at that node. */
  lemma {:induction false} TotalAfterReplace(nodes: map<NodeId, Node>, r: Resource, k: nat, u: NodeId, nd: Node)
    requires u in nodes
    ensures Total(nodes[u := nd], r, k)
         == Total(nodes, r, k) + (if 0 <= u < k then Amount(nd, r) - Amount(nodes[u], r) else 0)
    decreases k
  {
    if k > 0 {
      TotalAfterReplace(nodes, r, k - 1, u, nd);
    }
  }

  // ---------------------------------------------------------------------------
  // Construction

  /** The number of nodes `range(x)` creates. */
  function NodeCount(x: int): nat
  {
    if x > 0 then x else 0
  }

  /** Integer division rounding toward negative infinity, as the source's `//`. */
  function FloorDiv(a: int, b: int): (q: int)
    requires b != 0
    ensures b > 0 ==> q * b <= a < q * b + b
    ensures b < 0 ==> q * b >= a > q * b + b
  {
    if b > 0 then a / b else (-a) / (-b)
  }

  /** Multiplication by a natural number is monotone. */
  lemma {:induction false} MulMonotone(a: nat, b: nat, m: nat)
    requires a <= b
    ensures a * m <= b * m
    decreases b - a
  {
    if a < b {
      MulMonotone(a, b - 1, m);
      assert b * m == (b - 1) * m + m;
    }
  }

  /** How many distances were drawn before the edge loop reaches pair (i, j):
      the loop runs over i, then j, and skips j == i. */
  function DrawIndex(n: nat, i: nat, j: nat): (k: nat)
    requires i < n
    ensures j < n && j != i ==> k < n * (n - 1)
  {
    assert (i + 1) * (n - 1) <= n * (n - 1) by {
      MulMonotone(i + 1, n, n - 1);
    }
    assert (i + 1) * (n - 1) == i * (n - 1) + (n - 1);
    i * (n - 1) + (if j <= i then j else j - 1)
  }

  /** The node ids 0..n-1. */
  function NodeIds(n: nat): (s: set<NodeId>)
    ensures forall u :: u in s <==> 0 <= u < n
    decreases n
  {
    if n == 0 then {} else NodeIds(n - 1) + {n - 1}
  }

  /** An edge's travel time: its distance times the distance constant. */
  function TravelTime(distance: int, distanceConstant: real): real
  {
    distance as real * distanceConstant
  }

  /** A new edge, as added by the constructor: full capacity, no flow. */
  function FreshEdge(capacity: int, distance: int, distanceConstant: real): Edge
  {
    Edge(capacity, capacity, distance, TravelTime(distance, distanceConstant), 0)
  }

  /** The edge `e` as the constructor creates it, with the draw the loop takes for it. */
  function InitialEdge(n: nat, e: EdgeKey, nodeEdge: int, distanceConstant: real, draws: seq<int>): Edge
    requires IsEdgeKey(e, n) && |draws| >= n * (n - 1)
  {
    FreshEdge(nodeEdge, draws[DrawIndex(n, e.0, e.1)], distanceConstant)
  }

  /** Whether every draw lies in [1, 10), the range of the distances the source samples. */
  predicate DrawsInRange(draws: seq<int>)
  {
    forall k :: 0 <= k < |draws| ==> 1 <= draws[k] < 10
  }

  /** The graph the constructor builds: `x` nodes sharing `y` people and `z` cars
      evenly (the remainder is dropped), and an edge per ordered pair of distinct
      nodes whose distance is the draw taken when the loop created it. */
  function InitialGraph(x: int, y: int, z: int, nodeMax: int, nodeEdge: int, distanceConstant: real, draws: seq<int>): (g: Graph)
    requires x != 0
    requires |draws| >= NodeCount(x) * (NodeCount(x) - 1)
    ensures WellFormed(g, NodeCount(x))
    ensures forall u :: u in g.nodes ==> g.nodes[u] == Node(FloorDiv(y, x), FloorDiv(z, x), nodeMax)
    ensures forall e :: e in g.edges ==> g.edges[e] == InitialEdge(NodeCount(x), e, nodeEdge, distanceConstant, draws)
  {
    var n := NodeCount(x);
    var node := Node(FloorDiv(y, x), FloorDiv(z, x), nodeMax);
    var edges := map e | e in EdgeKeys(n) :: InitialEdge(n, e, nodeEdge, distanceConstant, draws);
    Graph(map u | u in NodeIds(n) :: node, edges)
  }

  /** Distinct edges are given distinct draws, so each edge has a distance of its own. */
  lemma DrawIndexInjective(n: nat, e: EdgeKey, f: EdgeKey)
    requires IsEdgeKey(e, n) && IsEdgeKey(f, n) && e != f
    ensures DrawIndex(n, e.0, e.1) != DrawIndex(n, f.0, f.1)
  {
    if e.0 != f.0 {
      var lo, hi := if e.0 < f.0 then e else f, if e.0 < f.0 then f else e;
      MulMonotone(lo.0 + 1, hi.0, n - 1);
      assert (lo.0 + 1) * (n - 1) == lo.0 * (n - 1) + (n - 1);
      assert DrawIndex(n, lo.0, lo.1) < (lo.0 + 1) * (n - 1) <= DrawIndex(n, hi.0, hi.1);
    }
  }

  /** Every node holds the same share, so the total is n times the share. */
  lemma {:induction false} TotalOfEvenShare(nodes: map<NodeId, Node>, r: Resource, k: nat, share: int)
    requires forall u :: 0 <= u < k ==> u in nodes && Amount(nodes[u], r) == share
    ensures Total(nodes, r, k) == k * share
    decreases k
  {
    if k > 0 {
      TotalOfEvenShare(nodes, r, k - 1, share);
    }
  }

  /** The constructor places x * (y // x) people and x * (z // x) cars: the remainder is dropped. */
  lemma InitialTotals(x: int, y: int, z: int, nodeMax: int, nodeEdge: int, distanceConstant: real, draws: seq<int>)
    requires x > 0
    requires |draws| >= x * (x - 1)
    ensures var g := InitialGraph(x, y, z, nodeMax, nodeEdge, distanceConstant, draws);
            && Total(g.nodes, People, x) == x * FloorDiv(y, x)
            && Total(g.nodes, Cars, x) == x * FloorDiv(z, x)
            && 0 <= y - Total(g.nodes, People, x) < x
            && 0 <= z - Total(g.nodes, Cars, x) < x
  {
    var g := InitialGraph(x, y, z, nodeMax, nodeEdge, distanceConstant, draws);
    TotalOfEvenShare(g.nodes, People, x, FloorDiv(y, x));
    TotalOfEvenShare(g.nodes, Cars, x, FloorDiv(z, x));
  }

  /** Every edge starts at full capacity with no flow, and with draws in [1, 10)
      its distance lies in [1, 10); the capacity bookkeeping is consistent from the start. */
  lemma InitialEdges(x: int, y: int, z: int, nodeMax: int, nodeEdge: int, distanceConstant: real, draws: seq<int>)
    requires x != 0
    requires |draws| >= NodeCount(x) * (NodeCount(x) - 1)
    requires DrawsInRange(draws)
    ensures var g := InitialGraph(x, y, z, nodeMax, nodeEdge, distanceConstant, draws);
            && Consistent(g.edges)
            && forall e :: e in g.edges ==>
                 && g.edges[e].maxCapacity == g.edges[e].currentCapacity == nodeEdge
                 && g.edges[e].flow == 0
                 && 1 <= g.edges[e].distance < 10
  {
    var n := NodeCount(x);
    var g := InitialGraph(x, y, z, nodeMax, nodeEdge, distanceConstant, draws);
    forall e | e in g.edges
      ensures g.edges[e].currentCapacity == g.edges[e].maxCapacity - g.edges[e].flow
      ensures && g.edges[e].maxCapacity == g.edges[e].currentCapacity == nodeEdge
              && g.edges[e].flow == 0
              && 1 <= g.edges[e].distance < 10
    {
      assert IsEdgeKey(e, n);
      var k := DrawIndex(n, e.0, e.1);
      assert k < |draws|;
      var d := draws[k];
      assert g.edges[e] == FreshEdge(nodeEdge, d, distanceConstant);
    }
  }

  // ---------------------------------------------------------------------------
  // update_resource_level

  /** Add signed deltas to one node, with no bound check; a missing node is a KeyError. */
  function UpdateLevel(g: Graph, node: NodeId, dp: int, dc: int): (m: After)
    ensures node !in g.nodes ==> m == After(g, Fail(NodeNotFound(node)))
    ensures node in g.nodes ==>
              && m.outcome == Ok
              && SameFixed(g, m.graph)
              && m.graph.edges == g.edges
              && m.graph.nodes[node].people == g.nodes[node].people + dp
              && m.graph.nodes[node].cars == g.nodes[node].cars + dc
              && forall u :: u in g.nodes && u != node ==> m.graph.nodes[u] == g.nodes[u]
  {
    if node in g.nodes then
      var nd := g.nodes[node];
      After(g.(nodes := g.nodes[node := nd.(people := nd.people + dp, cars := nd.cars + dc)]), Ok)
    else
      After(g, Fail(NodeNotFound(node)))
  }

  /** The change in a total that an update with deltas dp, dc makes. */
  function Delta(r: Resource, dp: int, dc: int): int
  {
    match r
    case People => dp
    case Cars => dc
  }

  /** An update moves the total of each resource by its delta. */
  lemma UpdateLevelTotal(g: Graph, n: nat, node: NodeId, dp: int, dc: int, r: Resource)
    requires WellFormed(g, n)
    requires 0 <= node < n
    ensures Total(UpdateLevel(g, node, dp, dc).graph.nodes, r, n) == Total(g.nodes, r, n) + Delta(r, dp, dc)
  {
    var nd := g.nodes[node];
    TotalAfterReplace(g.nodes, r, n, node, nd.(people := nd.people + dp, cars := nd.cars + dc));
  }

  // ---------------------------------------------------------------------------
  // adjust_edge_capacities and reset_flows

  function Recompute(e: Edge): Edge
  {
    e.(currentCapacity := e.maxCapacity - e.flow)
  }

  function Cleared(e: Edge): Edge
  {
    e.(flow := 0, currentCapacity := e.maxCapacity)
  }

  /** adjust_edge_capacities: only current capacities change, and they become consistent. */
  function AdjustAll(edges: map<EdgeKey, Edge>): (r: map<EdgeKey, Edge>)
    ensures r.Keys == edges.Keys
    ensures Consistent(r)
    ensures forall e :: e in edges ==> r[e] == edges[e].(currentCapacity := r[e].currentCapacity)
  {
    map e | e in edges :: Recompute(edges[e])
  }

  /** reset_flows: only flows and current capacities change; every flow is zero and
      every edge is back at full capacity. */
  function ResetAll(edges: map<EdgeKey, Edge>): (r: map<EdgeKey, Edge>)
    ensures r.Keys == edges.Keys
    ensures forall e :: e in edges ==>
              && r[e].flow == 0
              && r[e].currentCapacity == r[e].maxCapacity
              && r[e] == edges[e].(flow := r[e].flow, currentCapacity := r[e].currentCapacity)
  {
    map e | e in edges :: Cleared(edges[e])
  }

  /** Adjusting a consistent graph changes nothing. */
  lemma AdjustKeepsConsistent(edges: map<EdgeKey, Edge>)
    requires Consistent(edges)
    ensures AdjustAll(edges) == edges
  {
    var r := AdjustAll(edges);
    forall e | e in edges
      ensures r[e] == edges[e]
    {
    }
  }

  /** adjust_edge_capacities is idempotent. */
  lemma AdjustIdempotent(edges: map<EdgeKey, Edge>)
    ensures AdjustAll(AdjustAll(edges)) == AdjustAll(edges)
  {
    AdjustKeepsConsistent(AdjustAll(edges));
  }

  /** After a reset, adjusting changes nothing and every edge is at full capacity. */
  lemma ResetThenAdjust(edges: map<EdgeKey, Edge>)
    ensures AdjustAll(ResetAll(edges)) == ResetAll(edges)
    ensures forall e :: e in edges ==> AdjustAll(ResetAll(edges))[e].currentCapacity == edges[e].maxCapacity
  {
    AdjustKeepsConsistent(ResetAll(edges));
  }

  // ---------------------------------------------------------------------------
  // move_resources

  function Charge(e: Edge, amount: int): Edge
  {
    e.(flow := e.flow + amount, currentCapacity := e.currentCapacity - amount)
  }

  /** One iteration of the path loop over the step (u, v): charge the edge
      (a KeyError if it is missing), raise if its capacity went negative, leaving
      the charge in place, and otherwise move the resources from u to v. */
  function Step(g: Graph, u: NodeId, v: NodeId, p: int, c: int): (m: After)
    ensures SameFixed(g, m.graph)
    ensures (u, v) !in g.edges ==> m == After(g, Fail(EdgeNotFound(u, v)))
    ensures m.outcome == Ok ==>
              && (u, v) in g.edges
              && m.graph.edges == g.edges[(u, v) := Charge(g.edges[(u, v)], p)]
              && m.graph.edges[(u, v)].currentCapacity >= 0
  {
    if (u, v) !in g.edges then
      After(g, Fail(EdgeNotFound(u, v)))
    else
      var charged := Charge(g.edges[(u, v)], p);
      var g1 := g.(edges := g.edges[(u, v) := charged]);
      if charged.currentCapacity < 0 then
        After(g1, Fail(CapacityExceeded(u, v)))
      else
        var left := UpdateLevel(g1, u, -p, -c);
        if left.outcome.Fail? then left else UpdateLevel(left.graph, v, p, c)
  }

  /** move_resources: the steps of the path in order, stopping at the first that raises. */
  function Move(g: Graph, path: seq<NodeId>, p: int, c: int): (m: After)
    ensures SameFixed(g, m.graph)
    decreases |path|
  {
    if |path| < 2 then
      After(g, Ok)
    else
      var s := Step(g, path[0], path[1], p, c);
      if s.outcome.Fail? then s else Move(s.graph, path[1..], p, c)
  }

  /** The number of times `e` is a step (consecutive pair) of `path`. */
  function Occurrences(path: seq<NodeId>, e: EdgeKey): nat
    decreases |path|
  {
    if |path| < 2 then 0
    else (if (path[0], path[1]) == e then 1 else 0) + Occurrences(path[1..], e)
  }
}
