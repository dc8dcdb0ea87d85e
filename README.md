# Dynamic resource graph

A Dafny model of `DynamicResourceGraph` in `updated_h4d.py`. The class is a complete
directed graph over the nodes `0..x-1`. Each node holds counts of people and cars and
a maximum capacity, which is stored but never enforced. Each edge `(u, v)`, `u != v`,
holds a maximum capacity, a current (remaining) capacity, a distance, a travel time
and a flow. The class changes this bookkeeping in place through four operations:

- `update_resource_level` adds signed deltas to one node;
- `adjust_edge_capacities` recomputes every edge's current capacity as maximum less flow;
- `move_resources` walks a path, charging each step's edge and moving people and cars
  from the step's source to its target, and raises at the first edge whose capacity
  goes negative, without undoing anything;
- `reset_flows` clears every flow and restores every edge to full capacity.

The model has three modules:

- `ResourceModel` (`resource_model.dfy`) holds the node, edge and graph values and one
  specification function per operation, from the old state to the new state and an
  `Outcome` (`Ok`, or `Fail` with the exception raised). It also holds the lemmas about
  construction, updates, adjustment and reset.
- `MoveProperties` (`move_properties.dfy`) holds the lemmas about `Move`, the
  specification of `move_resources`.
- `DynamicGraph` (`dynamic_resource_graph.dfy`) holds the class. Its fields are the two
  attribute dictionaries, as maps `nodes: map<int, Node>` and `edges: map<(int, int), Edge>`.
  It fills them in the constructor's nested loops and rewrites them in loops over the
  edges and over the path steps. Each method's postcondition equates the new state
  with the specification function applied to the old state.

Modelling decisions:

- The random distances are an input: `draws` is the sequence of values that
  `np.random.randint(1, 10)` would return. The loop takes them one per edge, in the
  order it creates the edges (`DrawIndex`). The constructor requires every draw to lie
  in `[1, 10)`, the range the sampler returns.
- Python's `//` rounds toward negative infinity. Dafny's `/` is Euclidean, so the
  share per node is computed by `FloorDiv`.
- A `KeyError` from a missing node or edge is `Fail(NodeNotFound(..))` or
  `Fail(EdgeNotFound(..))`. The `ValueError` for a negative capacity is
  `Fail(CapacityExceeded(u, v))`. A failing operation returns the state at the point
  where it raised.
- The invariant "current capacity == maximum − flow" is the predicate `Consistent`. It is
  kept apart from the class invariant `Valid()`, which gives only the shape of the graph.
  So `adjust_edge_capacities` has something to establish, and the other methods are
  proved to preserve `Consistent`.
- `nodeCount` is the number of nodes, `max(x, 0)`. The loops over "all edges" go over
  the pairs `(i, j)`, `i != j`, in row-major order. A `DiGraph` lists edges by source
  node in node order, then by target in the order the targets were added, which here
  is row-major. The order cannot change any result, since adjusting and resetting
  treat each edge on its own.
- Edge distances and travel times are `int` and `real`. `travel_time` is
  `distance * distance_constant`, computed exactly, with no floating-point rounding.

Behaviour of the code that the model keeps:

- A failing step charges only its edge: the capacity check (updated_h4d.py:54) comes
  before the node updates (updated_h4d.py:56-57).
- `x == 0` raises `ZeroDivisionError` at updated_h4d.py:17; the constructor requires
  `x != 0`. A negative `x` yields an empty graph, as `range(x)` does.
- Node counts are not kept non-negative: no bound is checked, so counts may go negative.

## Model

| member | source | states |
|---|---|---|
| `ResourceModel.FloorDiv` | updated_h4d.py:17-18 | the share per node is the floor of the quotient, for either sign of the divisor |
| `ResourceModel.DrawIndex` | updated_h4d.py:26-29 | the draw taken for an edge is one of the `n*(n-1)` draws the edge loop makes |
| `ResourceModel.DrawIndexInjective` | updated_h4d.py:26-29 | distinct edges receive distinct draws, one fresh draw per edge |
| `ResourceModel.InitialGraph` | updated_h4d.py:12-32 | the built graph has nodes `0..n-1` and one edge per ordered pair of distinct nodes; every node holds `y // x` people, `z // x` cars and `node_max`; every edge is fresh: `node_edge` as maximum and current capacity, flow 0, its own draw as distance, and `distance * distance_constant` as travel time |
| `ResourceModel.InitialTotals` | updated_h4d.py:17-23 | after construction the total people is `x * (y // x)` and the total cars `x * (z // x)`, so fewer than `x` of each are dropped |
| `ResourceModel.InitialEdges` | updated_h4d.py:26-32 | every edge starts with `max_capacity == current_capacity == node_edge` and flow 0, so the capacity bookkeeping is consistent; with draws in `[1, 10)` every distance is in `[1, 10)` |
| `ResourceModel.UpdateLevel` | updated_h4d.py:34-37 | a missing node raises and changes nothing; otherwise the node gains the signed deltas with no bound check, and no other node and no edge changes |
| `ResourceModel.UpdateLevelTotal` | updated_h4d.py:34-37 | an update moves the total people by the people delta and the total cars by the cars delta |
| `ResourceModel.AdjustAll` | updated_h4d.py:39-45 | adjusting keeps the same edges, changes only current capacities, and leaves every edge with current capacity equal to maximum less flow |
| `ResourceModel.AdjustKeepsConsistent` | updated_h4d.py:39-45 | adjusting edges that are already consistent changes nothing |
| `ResourceModel.AdjustIdempotent` | updated_h4d.py:39-45 | adjusting twice is the same as adjusting once |
| `ResourceModel.ResetAll` | updated_h4d.py:59-63 | a reset keeps the same edges, changes only flow and current capacity, and leaves every flow 0 and every edge at full capacity |
| `ResourceModel.ResetThenAdjust` | updated_h4d.py:59-63 | adjusting after a reset changes nothing, and every edge's current capacity equals its maximum |
| `ResourceModel.Step` | updated_h4d.py:50-57 | one path step keeps every fixed attribute; a missing edge raises and changes nothing; a step that succeeds charges exactly its edge and leaves that edge's capacity non-negative |
| `ResourceModel.Move` | updated_h4d.py:47-57 | a run keeps the node set, the edge set, node maximum capacities, edge maximum capacities, distances and travel times |
| `MoveProperties.StepCases` | updated_h4d.py:50-57 | on a graph of the class, a step fails with `EdgeNotFound` exactly when its pair is not an edge; it fails with `CapacityExceeded` exactly when the charge drives the capacity below zero; a failing step moves no people or cars; a succeeding step charges the edge and moves `p` people and `c` cars from `u` to `v` |
| `MoveProperties.StepConserves` | updated_h4d.py:56-57 | a step keeps the total people and the total cars |
| `MoveProperties.StepConsistent` | updated_h4d.py:52-53 | a step keeps current capacity equal to maximum less flow |
| `MoveProperties.MoveSplit` | updated_h4d.py:49-57 | a run is its first k steps, then the rest of the path from the state they left, unless the first k steps failed |
| `MoveProperties.MoveFailure` | updated_h4d.py:52-57 | if the first k steps succeed and step k raises, the run ends in that step's state. If step k's charge drives the capacity negative, the result keeps the earlier steps' changes and the charge on that edge, moves no resources at that step, and reports that edge |
| `MoveProperties.MoveFailureWitness` | updated_h4d.py:49-55 | every failing run fails at some step whose predecessors all succeeded, and ends in the state that step left |
| `MoveProperties.MoveSuccessFlow` | updated_h4d.py:49-53 | a successful run raises each edge's flow by `p` times the number of its occurrences as a step of the path, and lowers its current capacity by the same amount |
| `MoveProperties.EdgeCapacityKept` | updated_h4d.py:52-55 | in a successful run whose path edges all end with non-negative capacity, every other edge with non-negative capacity before the run keeps it too (an edge the path never uses is left unchanged) |
| `MoveProperties.MoveSuccessCapacity` | updated_h4d.py:52-55 | after a successful run, every edge on the path exists and has non-negative current capacity |
| `MoveProperties.MoveConserves` | updated_h4d.py:52-57 | a run keeps the total people and the total cars over all nodes, whether it succeeds or fails |
| `MoveProperties.MoveConsistent` | updated_h4d.py:52-53 | a run keeps current capacity equal to maximum less flow, whether it succeeds or fails |
| `MoveProperties.MoveErrors` | updated_h4d.py:49-57 | on a graph of the class a run never misses a node. `EdgeNotFound` is reported only for an out-of-range pair or a self-loop; `CapacityExceeded` only for a real edge |
| `MoveProperties.ExampleRun` | updated_h4d.py:66-83 | for the example's graph (5 nodes, 100 people, 20 cars, edge capacity 30), moving 10 people and 2 cars along `[0, 1, 2]` succeeds. It leaves edges (0,1) and (1,2) at flow 10 and capacity 20, nodes 0, 1, 2 with 10, 20, 30 people and 2, 4, 6 cars, and the later adjustment changes nothing |
| `DynamicGraph.DynamicResourceGraph.constructor` | updated_h4d.py:5-10 | the new object stores the parameters and holds `InitialGraph`. It is well formed and consistent, and every distance is in `[1, 10)` |
| `DynamicGraph.DynamicResourceGraph.InitializeGraph` | updated_h4d.py:12-32 | the node loop, then the nested edge loop, build exactly `InitialGraph` from the empty graph, one draw per edge |
| `DynamicGraph.DynamicResourceGraph.UpdateResourceLevel` | updated_h4d.py:34-37 | the new state and outcome are `UpdateLevel` of the old state. The update succeeds exactly for ids `0..n-1` and moves the totals by the deltas |
| `DynamicGraph.DynamicResourceGraph.AdjustEdgeCapacities` | updated_h4d.py:39-45 | the edges become `AdjustAll` of the old edges and the nodes are unchanged |
| `DynamicGraph.DynamicResourceGraph.MoveResources` | updated_h4d.py:47-57 | the new state and outcome are `Move` of the old state. Totals of people and cars are unchanged, and consistency is preserved |
| `DynamicGraph.DynamicResourceGraph.MoveStep` | updated_h4d.py:50-57 | one iteration of the path loop leaves `Step` of the state before it |
| `DynamicGraph.DynamicResourceGraph.ResetFlows` | updated_h4d.py:59-63 | the edges become `ResetAll` of the old edges and the nodes are unchanged |

## Left out

- The networkx `DiGraph` is replaced by two maps. A missing node or edge is a key not
  in the map.
- `np.random.randint` is replaced by the `draws` input. The model does not describe the
  distribution of the draws, only their range.
- `distance_constant` and the travel times are exact reals. Floating-point rounding of
  `distance * distance_constant` is not modelled.
- The constructor requires `x != 0`, because the source's `y // x` raises
  `ZeroDivisionError` and a constructor cannot return an error outcome.
- `InitializeGraph` requires an empty graph. The source calls `initialize_graph` only
  from `__init__`, on a fresh `DiGraph`. A second call on a filled graph is not modelled.
- `InitialEdges` does not restate the travel times. `InitialGraph` states them through
  `FreshEdge`.
- The node `max_capacity` is set at construction and is never changed or checked, so
  no property beyond that is stated.
- Node ids, path entries and amounts are integers. Python would also accept other
  hashable ids or float amounts.
- The example block's printing (updated_h4d.py:85-92) is I/O and is not modelled.
- Vehicle records, positions and their advancement are not modelled, because none of
  them exist in `updated_h4d.py`.
