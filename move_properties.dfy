/**
 What `move_resources` promises, proved about its specification `Move`: how a
 run splits at a step, where and how it fails (with no rollback), the flow a
 successful run charges to each edge, conservation of people and cars, and the
 capacity bookkeeping it keeps.
 */
module MoveProperties {
  import opened ResourceModel

  /** One step under the shapes the class keeps: what it leaves behind, case by case. */
  lemma StepCases(g: Graph, n: nat, u: NodeId, v: NodeId, p: int, c: int)
    requires WellFormed(g, n)
    ensures var m := Step(g, u, v, p, c);
            && ((u, v) !in g.edges <==> m.outcome == Fail(EdgeNotFound(u, v)))
            && ((u, v) in g.edges && g.edges[(u, v)].currentCapacity - p < 0 <==> m.outcome == Fail(CapacityExceeded(u, v)))
            && (m.outcome.Fail? ==> m.graph.nodes == g.nodes)
            && (m.outcome == Ok ==>
                  && m.graph.edges == g.edges[(u, v) := Charge(g.edges[(u, v)], p)]
                  && m.graph.nodes == g.nodes[u := g.nodes[u].(people := g.nodes[u].people - p, cars := g.nodes[u].cars - c)]
                                             [v := g.nodes[v].(people := g.nodes[v].people + p, cars := g.nodes[v].cars + c)])
  {
  }

  /** A step moves people and cars from one node to another and so keeps every total. */
  lemma StepConserves(g: Graph, n: nat, u: NodeId, v: NodeId, p: int, c: int, r: Resource)
    requires WellFormed(g, n)
    ensures Total(Step(g, u, v, p, c).graph.nodes, r, n) == Total(g.nodes, r, n)
  {
    var m := Step(g, u, v, p, c);
    if m.outcome == Ok {
      var charged := g.(edges := g.edges[(u, v) := Charge(g.edges[(u, v)], p)]);
      var left := UpdateLevel(charged, u, -p, -c);
      UpdateLevelTotal(charged, n, u, -p, -c, r);
      UpdateLevelTotal(left.graph, n, v, p, c, r);
    }
  }

  /** A step keeps an edge's remaining capacity equal to its maximum less its flow. */
  lemma StepConsistent(g: Graph, u: NodeId, v: NodeId, p: int, c: int)
    requires Consistent(g.edges)
    ensures Consistent(Step(g, u, v, p, c).graph.edges)
  {
  }

  /** A graph with the same keys as a well-formed one is well-formed. */
  lemma SameFixedWellFormed(g: Graph, h: Graph, n: nat)
    requires WellFormed(g, n) && SameFixed(g, h)
    ensures WellFormed(h, n)
  {
  }

  /** A run splits at step k: the first k steps, then the rest of the path from
      the state they left, unless the first k steps already failed. */
  lemma {:induction false} MoveSplit(g: Graph, path: seq<NodeId>, p: int, c: int, k: nat)
    requires k < |path|
    ensures var first := Move(g, path[..k + 1], p, c);
            Move(g, path, p, c) == if first.outcome.Fail? then first else Move(first.graph, path[k..], p, c)
    decreases k
  {
    if k == 0 {
      assert path[0..] == path;
    } else {
      var s := Step(g, path[0], path[1], p, c);
      assert path[..k + 1][0] == path[0] && path[..k + 1][1] == path[1];
      if s.outcome == Ok {
        MoveSplit(s.graph, path[1..], p, c, k - 1);
        assert path[..k + 1][1..] == path[1..][..k];
        assert path[1..][k - 1..] == path[k..];
      }
    }
  }

  /** If the first k steps succeeded and step k raises, the run raises there:
      the state is the one step k left, and in particular a step that drives the
      capacity below zero keeps its charge on that edge, keeps the earlier steps,
      and moves no resources. */
  lemma MoveFailure(g: Graph, path: seq<NodeId>, p: int, c: int, k: nat)
    requires k < |path| - 1
    requires Move(g, path[..k + 1], p, c).outcome == Ok
    ensures var before := Move(g, path[..k + 1], p, c).graph;
            var s := Step(before, path[k], path[k + 1], p, c);
            s.outcome.Fail? ==> Move(g, path, p, c) == s
    ensures var before := Move(g, path[..k + 1], p, c).graph;
            var e := (path[k], path[k + 1]);
            e in before.edges && before.edges[e].currentCapacity - p < 0 ==>
              Move(g, path, p, c)
              == After(before.(edges := before.edges[e := Charge(before.edges[e], p)]), Fail(CapacityExceeded(e.0, e.1)))
  {
    MoveSplit(g, path, p, c, k);
    var rest := path[k..];
    assert rest[0] == path[k] && rest[1] == path[k + 1];
  }

  /** Every failing run fails at a step k whose predecessors all succeeded, and
      leaves exactly the state that step left. */
  lemma {:induction false} MoveFailureWitness(g: Graph, path: seq<NodeId>, p: int, c: int) returns (k: nat)
    requires Move(g, path, p, c).outcome.Fail?
    ensures k < |path| - 1
    ensures Move(g, path[..k + 1], p, c).outcome == Ok
    ensures Step(Move(g, path[..k + 1], p, c).graph, path[k], path[k + 1], p, c) == Move(g, path, p, c)
    decreases |path|
  {
    var s := Step(g, path[0], path[1], p, c);
    if s.outcome.Fail? {
      k := 0;
    } else {
      var k' := MoveFailureWitness(s.graph, path[1..], p, c);
      k := k' + 1;
      assert path[..k + 1][0] == path[0] && path[..k + 1][1] == path[1];
      assert path[..k + 1][1..] == path[1..][..k' + 1];
    }
  }

  lemma MulSucc(p: int, k: int)
    ensures p * (k + 1) == p * k + p
  {
  }

  /** A run that succeeds charges each edge p times the number of times it is a
      step of the path: flow goes up and remaining capacity down by that amount. */
  lemma {:induction false} MoveSuccessFlow(g: Graph, path: seq<NodeId>, p: int, c: int)
    requires Move(g, path, p, c).outcome == Ok
    ensures forall e :: e in g.edges ==>
              && Move(g, path, p, c).graph.edges[e].flow == g.edges[e].flow + p * Occurrences(path, e)
              && Move(g, path, p, c).graph.edges[e].currentCapacity == g.edges[e].currentCapacity - p * Occurrences(path, e)
    decreases |path|
  {
    if |path| >= 2 {
      var s := Step(g, path[0], path[1], p, c);
      MoveSuccessFlow(s.graph, path[1..], p, c);
      forall e | e in g.edges
        ensures Move(g, path, p, c).graph.edges[e].flow == g.edges[e].flow + p * Occurrences(path, e)
        ensures Move(g, path, p, c).graph.edges[e].currentCapacity == g.edges[e].currentCapacity - p * Occurrences(path, e)
      {
        var k := Occurrences(path[1..], e);
        var before := s.graph.edges[e];
        var after := Move(s.graph, path[1..], p, c).graph.edges[e];
        assert after.flow == before.flow + p * k;
        if e == (path[0], path[1]) {
          assert Occurrences(path, e) == k + 1;
          assert before == Charge(g.edges[e], p);
          MulSucc(p, k);
        } else {
          assert Occurrences(path, e) == k;
          assert before == g.edges[e];
        }
      }
    }
  }

  /** An edge that is a step of the path sits at some consecutive pair. */
  lemma {:induction false} OccurrenceWitness(path: seq<NodeId>, e: EdgeKey) returns (j: nat)
    requires Occurrences(path, e) > 0
    ensures j < |path| - 1 && (path[j], path[j + 1]) == e
    decreases |path|
  {
    if (path[0], path[1]) == e {
      j := 0;
    } else {
      var j' := OccurrenceWitness(path[1..], e);
      j := j' + 1;
    }
  }

  /** The capacities a successful run leaves on the edges of its path. */
  ghost predicate PathCapacitiesNonNegative(g: Graph, path: seq<NodeId>, after: Graph)
  {
    forall i :: 0 <= i < |path| - 1 ==>
      && (path[i], path[i + 1]) in g.edges
      && (path[i], path[i + 1]) in after.edges
      && after.edges[(path[i], path[i + 1])].currentCapacity >= 0
  }

  /** In a successful run, an edge that starts with non-negative capacity ends
      with it: either the run never charges it, or its last charge was checked. */
  lemma EdgeCapacityKept(g: Graph, path: seq<NodeId>, p: int, c: int, e: EdgeKey)
    requires Move(g, path, p, c).outcome == Ok
    requires PathCapacitiesNonNegative(g, path, Move(g, path, p, c).graph)
    requires e in g.edges && g.edges[e].currentCapacity >= 0
    ensures Move(g, path, p, c).graph.edges[e].currentCapacity >= 0
  {
    if Occurrences(path, e) > 0 {
      var j := OccurrenceWitness(path, e);
    } else {
      MoveSuccessFlow(g, path, p, c);
    }
  }

  /** After a successful run no edge of the path has negative remaining capacity. */
  lemma {:induction false} MoveSuccessCapacity(g: Graph, path: seq<NodeId>, p: int, c: int)
    requires Move(g, path, p, c).outcome == Ok
    ensures PathCapacitiesNonNegative(g, path, Move(g, path, p, c).graph)
    decreases |path|
  {
    if |path| >= 2 {
      var s := Step(g, path[0], path[1], p, c);
      var rest := Move(s.graph, path[1..], p, c);
      assert Move(g, path, p, c) == rest;
      MoveSuccessCapacity(s.graph, path[1..], p, c);
      EdgeCapacityKept(s.graph, path[1..], p, c, (path[0], path[1]));
      forall i | 1 <= i < |path| - 1
        ensures (path[i], path[i + 1]) in g.edges && rest.graph.edges[(path[i], path[i + 1])].currentCapacity >= 0
      {
        assert path[1..][i - 1] == path[i] && path[1..][i] == path[i + 1];
      }
    }
  }

  /** A run conserves the total people and cars over all nodes, whether it succeeds or fails. */
  lemma {:induction false} MoveConserves(g: Graph, n: nat, path: seq<NodeId>, p: int, c: int, r: Resource)
    requires WellFormed(g, n)
    ensures Total(Move(g, path, p, c).graph.nodes, r, n) == Total(g.nodes, r, n)
    decreases |path|
  {
    if |path| >= 2 {
      var s := Step(g, path[0], path[1], p, c);
      StepConserves(g, n, path[0], path[1], p, c, r);
      if s.outcome == Ok {
        SameFixedWellFormed(g, s.graph, n);
        MoveConserves(s.graph, n, path[1..], p, c, r);
      }
    }
  }

  /** A run keeps every remaining capacity equal to maximum less flow, whether it succeeds or fails. */
  lemma {:induction false} MoveConsistent(g: Graph, path: seq<NodeId>, p: int, c: int)
    requires Consistent(g.edges)
    ensures Consistent(Move(g, path, p, c).graph.edges)
    decreases |path|
  {
    if |path| >= 2 {
      var s := Step(g, path[0], path[1], p, c);
      StepConsistent(g, path[0], path[1], p, c);
      if s.outcome == Ok {
        MoveConsistent(s.graph, path[1..], p, c);
      }
    }
  }

  /** On a graph of the class a run never misses a node: it fails only at a step
      that is not an edge (an id out of range or a self-loop), or at an edge
      whose capacity went negative. */
  lemma {:induction false} MoveErrors(g: Graph, n: nat, path: seq<NodeId>, p: int, c: int)
    requires WellFormed(g, n)
    ensures match Move(g, path, p, c).outcome
            case Ok => true
            case Fail(NodeNotFound(_)) => false
            case Fail(EdgeNotFound(u, v)) => !IsEdgeKey((u, v), n)
            case Fail(CapacityExceeded(u, v)) => IsEdgeKey((u, v), n)
    decreases |path|
  {
    if |path| >= 2 {
      var s := Step(g, path[0], path[1], p, c);
      StepCases(g, n, path[0], path[1], p, c);
      if s.outcome == Ok {
        SameFixedWellFormed(g, s.graph, n);
        MoveErrors(s.graph, n, path[1..], p, c);
      }
    }
  }

  /** The run of the source's example: five nodes sharing 100 people and 20 cars,
      edges of capacity 30, and 10 people with 2 cars moved along 0 -> 1 -> 2. */
  lemma ExampleRun(draws: seq<int>)
    requires |draws| >= 20
    ensures var g := InitialGraph(5, 100, 20, 50, 30, 1.5, draws);
            var m := Move(g, [0, 1, 2], 10, 2);
            && m.outcome == Ok
            && m.graph.edges[(0, 1)].flow == 10 && m.graph.edges[(0, 1)].currentCapacity == 20
            && m.graph.edges[(1, 2)].flow == 10 && m.graph.edges[(1, 2)].currentCapacity == 20
            && m.graph.nodes[0].people == 10 && m.graph.nodes[1].people == 20 && m.graph.nodes[2].people == 30
            && m.graph.nodes[0].cars == 2 && m.graph.nodes[1].cars == 4 && m.graph.nodes[2].cars == 6
            && AdjustAll(m.graph.edges) == m.graph.edges
  {
    var g := InitialGraph(5, 100, 20, 50, 30, 1.5, draws);
    assert FloorDiv(100, 5) == 20 && FloorDiv(20, 5) == 4;
    var m := Move(g, [0, 1, 2], 10, 2);
    var s := Step(g, 0, 1, 10, 2);
    StepCases(g, 5, 0, 1, 10, 2);
    assert [0, 1, 2][1..] == [1, 2];
    StepCases(s.graph, 5, 1, 2, 10, 2);
    assert Consistent(g.edges);
    MoveConsistent(g, [0, 1, 2], 10, 2);
    AdjustKeepsConsistent(m.graph.edges);
  }
}
