/**
 The class `DynamicResourceGraph`: a complete directed graph over nodes
 0..nodeCount-1 whose node and edge attribute dictionaries are updated in place.
 Each method is proved against the function of module ResourceModel that
 specifies it, so everything proved about those functions holds of the class.
 */
module DynamicGraph {
  import opened ResourceModel
  import MoveProperties

  class DynamicResourceGraph {
    /** The number of nodes the graph was built with; the node ids are 0..nodeCount-1. */
    const nodeCount: nat
    const nodeMax: int
    const nodeEdge: int
    const distanceConstant: real

    /** The node attribute dictionary. */
    var nodes: map<NodeId, Node>
    /** The edge attribute dictionary, keyed by (u, v). */
    var edges: map<EdgeKey, Edge>

    ghost function State(): Graph
      reads this
    {
      Graph(nodes, edges)
    }

    /** The graph has nodes 0..nodeCount-1 and every edge between distinct ones. */
    ghost predicate Valid()
      reads this
    {
      WellFormed(State(), nodeCount)
    }

    /** Builds the graph: `x` nodes with an even share of `y` people and `z` cars,
        and an edge per ordered pair of distinct nodes. `draws` stands for the
        random distances, taken one per edge in the order the edges are created. */
    constructor (x: int, y: int, z: int, nodeMax: int, nodeEdge: int, distanceConstant: real, draws: seq<int>)
      requires x != 0
      requires |draws| >= NodeCount(x) * (NodeCount(x) - 1)
      requires DrawsInRange(draws)
      ensures nodeCount == NodeCount(x)
      ensures this.nodeMax == nodeMax && this.nodeEdge == nodeEdge && this.distanceConstant == distanceConstant
      ensures State() == InitialGraph(x, y, z, nodeMax, nodeEdge, distanceConstant, draws)
      ensures Valid() && Consistent(edges)
      ensures forall e :: e in edges ==> 1 <= edges[e].distance < 10
    {
      this.nodeCount := NodeCount(x);
      this.nodeMax := nodeMax;
      this.nodeEdge := nodeEdge;
      this.distanceConstant := distanceConstant;
      nodes := map[];
      edges := map[];
      new;
      InitializeGraph(x, y, z, draws);
      InitialEdges(x, y, z, nodeMax, nodeEdge, distanceConstant, draws);
    }

    /** Fills the empty graph: first the nodes, then the edges row by row. */
    method InitializeGraph(x: int, y: int, z: int, draws: seq<int>)
      requires x != 0 && nodeCount == NodeCount(x)
      requires |draws| >= nodeCount * (nodeCount - 1)
      requires nodes == map[] && edges == map[]
      modifies this
      ensures State() == InitialGraph(x, y, z, nodeMax, nodeEdge, distanceConstant, draws)
    {
      var peoplePerNode := FloorDiv(y, x);
      var carsPerNode := FloorDiv(z, x);
      for node := 0 to nodeCount
        invariant edges == map[]
        invariant forall u :: u in nodes <==> 0 <= u < node
        invariant forall u :: u in nodes ==> nodes[u] == Node(peoplePerNode, carsPerNode, nodeMax)
      {
        nodes := nodes[node := Node(peoplePerNode, carsPerNode, nodeMax)];
      }

      ghost var builtNodes := nodes;
      var k := 0;  // the number of distances drawn so far
      for i := 0 to nodeCount
        invariant nodes == builtNodes
        invariant k == i * (nodeCount - 1)
        invariant forall e :: e in edges <==> IsEdgeKey(e, nodeCount) && e.0 < i
        invariant forall e :: e in edges ==>
                    edges[e] == InitialEdge(nodeCount, e, nodeEdge, distanceConstant, draws)
      {
        for j := 0 to nodeCount
          invariant nodes == builtNodes
          invariant k == DrawIndex(nodeCount, i, j)
          invariant forall e :: e in edges <==> IsEdgeKey(e, nodeCount) && (e.0 < i || (e.0 == i && e.1 < j))
          invariant forall e :: e in edges ==>
                      edges[e] == InitialEdge(nodeCount, e, nodeEdge, distanceConstant, draws)
        {
          if i != j {
            var distance := draws[k];
            var travelTime := TravelTime(distance, distanceConstant);
            assert IsEdgeKey((i, j), nodeCount);
            assert Edge(nodeEdge, nodeEdge, distance, travelTime, 0)
                == InitialEdge(nodeCount, (i, j), nodeEdge, distanceConstant, draws);
            edges := edges[(i, j) := Edge(nodeEdge, nodeEdge, distance, travelTime, 0)];
            k := k + 1;
          }
        }
        assert (i + 1) * (nodeCount - 1) == i * (nodeCount - 1) + (nodeCount - 1);
      }
      ghost var g := InitialGraph(x, y, z, nodeMax, nodeEdge, distanceConstant, draws);
      assert nodes == g.nodes;
      assert edges == g.edges;
    }

    /** Adds signed deltas to one node's people and cars, with no bound check;
        a node that is not in the graph is a KeyError. */
    method UpdateResourceLevel(node: NodeId, peopleAmount: int, carsAmount: int) returns (r: Outcome)
      requires Valid()
      modifies this
      ensures Valid()
      ensures After(State(), r) == UpdateLevel(old(State()), node, peopleAmount, carsAmount)
      ensures r == Ok <==> 0 <= node < nodeCount
      ensures r == Ok ==> Total(nodes, People, nodeCount) == old(Total(nodes, People, nodeCount)) + peopleAmount
      ensures r == Ok ==> Total(nodes, Cars, nodeCount) == old(Total(nodes, Cars, nodeCount)) + carsAmount
    {
      if node !in nodes {
        return Fail(NodeNotFound(node));
      }
      UpdateLevelTotal(State(), nodeCount, node, peopleAmount, carsAmount, People);
      UpdateLevelTotal(State(), nodeCount, node, peopleAmount, carsAmount, Cars);
      nodes := nodes[node := nodes[node].(people := nodes[node].people + peopleAmount)];
      nodes := nodes[node := nodes[node].(cars := nodes[node].cars + carsAmount)];
      r := Ok;
    }

    /** Sets each edge's remaining capacity to its maximum less its flow. */
    method AdjustEdgeCapacities()
      requires Valid()
      modifies this
      ensures Valid() && Consistent(edges)
      ensures nodes == old(nodes)
      ensures edges == AdjustAll(old(edges))
    {
      for i := 0 to nodeCount
        invariant nodes == old(nodes) && edges.Keys == old(edges).Keys
        invariant forall e :: e in edges ==>
                    edges[e] == if e.0 < i then Recompute(old(edges)[e]) else old(edges)[e]
      {
        for j := 0 to nodeCount
          invariant nodes == old(nodes) && edges.Keys == old(edges).Keys
          invariant forall e :: e in edges ==>
                      edges[e] == if e.0 < i || (e.0 == i && e.1 < j) then Recompute(old(edges)[e]) else old(edges)[e]
        {
          if i != j {
            var maxCapacity := edges[(i, j)].maxCapacity;
            var currentFlow := edges[(i, j)].flow;
            edges := edges[(i, j) := edges[(i, j)].(currentCapacity := maxCapacity - currentFlow)];
          }
        }
      }
    }

    /** Walks the path step by step: charges the flow to the edge, raises if the
        capacity went negative (keeping what was done), and otherwise moves the
        people and cars from the step's source to its target. */
    method MoveResources(path: seq<NodeId>, peopleAmount: int, carsAmount: int) returns (r: Outcome)
      requires Valid()
      modifies this
      ensures Valid()
      ensures After(State(), r) == Move(old(State()), path, peopleAmount, carsAmount)
      ensures Total(nodes, People, nodeCount) == old(Total(nodes, People, nodeCount))
      ensures Total(nodes, Cars, nodeCount) == old(Total(nodes, Cars, nodeCount))
      ensures old(Consistent(edges)) ==> Consistent(edges)
    {
      ghost var start := State();
      ghost var want := Move(start, path, peopleAmount, carsAmount);
      r := Ok;
      var i := 0;
      while i < |path| - 1
        invariant 0 <= i <= |path|
        invariant |path| > 0 ==> i < |path|
        invariant Valid()
        invariant r == Ok
        invariant Move(State(), path[i..], peopleAmount, carsAmount) == want
      {
        assert path[i..][0] == path[i] && path[i..][1] == path[i + 1] && path[i..][1..] == path[i + 1..];
        ghost var step := Step(State(), path[i], path[i + 1], peopleAmount, carsAmount);
        assert want == if step.outcome.Fail? then step else Move(step.graph, path[i + 1..], peopleAmount, carsAmount);
        r := MoveStep(path[i], path[i + 1], peopleAmount, carsAmount);
        if r.Fail? {
          break;
        }
        i := i + 1;
      }
      assert r == Ok ==> |path[i..]| < 2;
      assert After(State(), r) == want;
      MoveProperties.MoveConserves(start, nodeCount, path, peopleAmount, carsAmount, People);
      MoveProperties.MoveConserves(start, nodeCount, path, peopleAmount, carsAmount, Cars);
      if Consistent(start.edges) {
        MoveProperties.MoveConsistent(start, path, peopleAmount, carsAmount);
      }
    }

    /** The body of the path loop for the step (u, v). */
    method MoveStep(u: NodeId, v: NodeId, peopleAmount: int, carsAmount: int) returns (r: Outcome)
      requires Valid()
      modifies this
      ensures Valid()
      ensures After(State(), r) == Step(old(State()), u, v, peopleAmount, carsAmount)
    {
      if (u, v) !in edges {
        return Fail(EdgeNotFound(u, v));
      }
      var edge := edges[(u, v)];
      edges := edges[(u, v) := edge.(flow := edge.flow + peopleAmount,
                                     currentCapacity := edge.currentCapacity - peopleAmount)];
      if edges[(u, v)].currentCapacity < 0 {
        return Fail(CapacityExceeded(u, v));
      }
      ghost var charged := State();
      r := UpdateResourceLevel(u, -peopleAmount, -carsAmount);
      if r.Fail? {
        return;
      }
      assert After(State(), r) == UpdateLevel(charged, u, -peopleAmount, -carsAmount);
      r := UpdateResourceLevel(v, peopleAmount, carsAmount);
    }

    /** Clears every edge's flow and restores its full capacity. */
    method ResetFlows()
      requires Valid()
      modifies this
      ensures Valid() && Consistent(edges)
      ensures nodes == old(nodes)
      ensures edges == ResetAll(old(edges))
    {
      for i := 0 to nodeCount
        invariant nodes == old(nodes) && edges.Keys == old(edges).Keys
        invariant forall e :: e in edges ==>
                    edges[e] == if e.0 < i then Cleared(old(edges)[e]) else old(edges)[e]
      {
        for j := 0 to nodeCount
          invariant nodes == old(nodes) && edges.Keys == old(edges).Keys
          invariant forall e :: e in edges ==>
                      edges[e] == if e.0 < i || (e.0 == i && e.1 < j) then Cleared(old(edges)[e]) else old(edges)[e]
        {
          if i != j {
            edges := edges[(i, j) := edges[(i, j)].(flow := 0)];
            edges := edges[(i, j) := edges[(i, j)].(currentCapacity := edges[(i, j)].maxCapacity)];
          }
        }
      }
    }
  }
}
