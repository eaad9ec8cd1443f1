/** The path that `Cs` reads off the predecessors of its search. */
module ShortestPath {
  import opened DijkstraSearch
  import opened Outcomes
  import opened PredecessorTree
  import opened Walks

  /** What is left of a vertex list behind its last empty name. */
  function AfterEmptyName(p: seq<Vertex>): seq<Vertex> {
    if p == [] || p[|p| - 1] == "" then [] else AfterEmptyName(p[..|p| - 1]) + [p[|p| - 1]]
  }

  /** Nothing is lost exactly when no vertex on the list has the empty name. */
  lemma {:induction false} CompleteIffNoEmptyName(p: seq<Vertex>)
    ensures AfterEmptyName(p) == p <==> "" !in p
    ensures |AfterEmptyName(p)| <= |p|
  {
    if p != [] {
      var front := p[..|p| - 1];
      assert p == front + [p[|p| - 1]];
      CompleteIffNoEmptyName(front);
    }
  }

  function Reversed(p: seq<Vertex>): seq<Vertex> {
    if p == [] then [] else Reversed(p[1..]) + [p[0]]
  }

  lemma {:induction false} ReversedAppend(p: seq<Vertex>, v: Vertex)
    ensures Reversed(p + [v]) == [v] + Reversed(p)
  {
    if p != [] {
      assert (p + [v])[1..] == p[1..] + [v];
      ReversedAppend(p[1..], v);
    }
  }

  ghost function ChainFrom(pred: map<Vertex, Vertex>, rank: map<Vertex, nat>, r: Option<Vertex>): seq<Vertex>
    requires Ranked(pred, rank)
  {
    if r.Some? then Chain(pred, rank, r.value) else []
  }

  lemma ChainStep(pred: map<Vertex, Vertex>, rank: map<Vertex, nat>, v: Vertex)
    requires Ranked(pred, rank) && v != ""
    ensures var rest := ChainFrom(pred, rank, if v in pred then Some(pred[v]) else None);
            AfterEmptyName(Chain(pred, rank, v)) == AfterEmptyName(rest) + [v]
  {
    var chain := Chain(pred, rank, v);
    assert chain[..|chain| - 1] == ChainFrom(pred, rank, if v in pred then Some(pred[v]) else None);
  }

  /**
   `extract_shortest_path_from_predecessor_list`: follows the predecessors back from the target. The
   loop's test is JavaScript's truth of a string, so it also stops at the empty name.
   */
  method Extract(pred: map<Vertex, Vertex>, target: Vertex, ghost rank: map<Vertex, nat>) returns (path: seq<Vertex>)
    requires Ranked(pred, rank)
    ensures path == AfterEmptyName(Chain(pred, rank, target))
  {
    hide Ranked, Chain;
    var nodes: seq<Vertex> := [];
    var r := Some(target);
    while r.Some? && r.value != ""
      invariant AfterEmptyName(ChainFrom(pred, rank, r)) + Reversed(nodes) == AfterEmptyName(Chain(pred, rank, target))
      decreases if r.None? then 0 else 1 + (if r.value in rank then 1 + rank[r.value] else 0)
    {
      ReversedAppend(nodes, r.value);
      ChainStep(pred, rank, r.value);
      PredecessorRanksLower(pred, rank, r.value);
      nodes := nodes + [r.value];
      r := if r.value in pred then Some(pred[r.value]) else None;
    }
    assert r.Some? ==> AfterEmptyName(ChainFrom(pred, rank, r)) == [] by {
      EndsInEmptyName(pred, rank);
    }
    path := Reversed(nodes);
  }

  lemma PredecessorRanksLower(pred: map<Vertex, Vertex>, rank: map<Vertex, nat>, v: Vertex)
    requires Ranked(pred, rank)
    ensures v in pred ==> v in rank && pred[v] in rank && rank[pred[v]] < rank[v]
  {
  }

  lemma EndsInEmptyName(pred: map<Vertex, Vertex>, rank: map<Vertex, nat>)
    requires Ranked(pred, rank)
    ensures AfterEmptyName(Chain(pred, rank, "")) == []
  {
  }

  /**
   `find_path`: throws exactly when there is no way to the target, and otherwise returns what an
   empty vertex name leaves of a shortest one.
   */
  method FindPath(g: Graph, s: Vertex, target: Vertex) returns (res: Result<seq<Vertex>>)
    requires NonNegative(g)
    ensures res.Thrown? <==> !Reachable(g, s, target)
    ensures res.Ok? ==> exists steps :: IsShortest(g, s, target, steps) && res.value == AfterEmptyName(Visited(s, steps))
    ensures res.Ok? && "" !in Vertices(g, s) ==>
              exists steps :: IsShortest(g, s, target, steps) && res.value == Visited(s, steps)
  {
    hide NonNegative, Found, Reachable, IsShortest, AfterEmptyName, Visited, Chain, Vertices;
    var found, dist, rank := SingleSource(g, s, Some(target));
    if found.Thrown? {
      return Thrown;
    }
    FoundIsRanked(g, s, dist, found.value, rank);
    FoundIsReachable(g, s, dist, found.value, rank, target);
    ChainIsShortest(g, s, dist, found.value, rank, target);
    var path := Extract(found.value, target, rank);
    ghost var steps :| IsShortest(g, s, target, steps) && Visited(s, steps) == Chain(found.value, rank, target);
    if "" !in Vertices(g, s) {
      VisitedAreVertices(g, s, target, steps);
      CompleteIffNoEmptyName(Visited(s, steps));
    }
    res := Ok(path);
  }

  /** A graph whose only way to the target runs through the vertex with the empty name. */
  const THROUGH_EMPTY_NAME: Graph := map["a" := [Edge("", 1.0)], "" := [Edge("b", 1.0)]]

  /** There the way back stops early, and the path returned has lost its start. */
  lemma EmptyNameCutsPath()
    ensures NonNegative(THROUGH_EMPTY_NAME) && Reachable(THROUGH_EMPTY_NAME, "a", "b")
    ensures forall steps: seq<Edge> | IsShortest(THROUGH_EMPTY_NAME, "a", "b", steps) ::
              AfterEmptyName(Visited("a", steps)) == ["b"] && Visited("a", steps) != ["b"]
  {
    var g := THROUGH_EMPTY_NAME;
    var way := [Edge("", 1.0), Edge("b", 1.0)];
    assert way[..1] == [Edge("", 1.0)] && way[..1][..0] == [];
    assert HasEdge(g, "a", Edge("", 1.0)) && HasEdge(g, "", Edge("b", 1.0));
    assert IsWalk(g, "a", way[..1]);
    assert IsWalk(g, "a", way) && End("a", way) == "b";
    forall steps: seq<Edge> | IsShortest(g, "a", "b", steps)
      ensures AfterEmptyName(Visited("a", steps)) == ["b"] && Visited("a", steps) != ["b"]
    {
      var front := steps[..|steps| - 1];
      assert HasEdge(g, End("a", front), Edge("b", steps[|steps| - 1].cost));
      assert End("a", front) == "";
      EndIsVisited("a", front);
      var visited := Visited("a", steps);
      assert visited[..|visited| - 1] == Visited("a", front);
    }
  }
}
