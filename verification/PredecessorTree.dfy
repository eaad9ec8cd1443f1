/** What the search leaves behind: distances, and predecessors that lead back along shortest walks. */
module PredecessorTree {
  import opened Walks

  /** The first `k` edges of `v` offer no shortcut. */
  ghost predicate Relaxed(g: Graph, dist: map<Vertex, real>, v: Vertex, k: int) {
    forall j | 0 <= j < k && j < |Edges(g, v)| :: NoShortcut(dist, v, Edges(g, v)[j])
  }

  ghost predicate NoShortcut(dist: map<Vertex, real>, v: Vertex, e: Edge) {
    v in dist && e.to in dist && dist[e.to] <= dist[v] + e.cost
  }

  /** The result of the search: distances, predecessors, and a rank that shows the latter have no cycle. */
  ghost predicate Found(g: Graph, s: Vertex, dist: map<Vertex, real>, pred: map<Vertex, Vertex>, rank: map<Vertex, nat>) {
    && s in dist && dist[s] == 0.0
    && dist.Keys == pred.Keys + {s} && s !in pred && rank.Keys == dist.Keys
    && (forall v | v in pred :: Linked(g, dist, rank, pred[v], v))
    && (forall v | v in dist :: Relaxed(g, dist, v, |Edges(g, v)|))
  }

  ghost predicate Linked(g: Graph, dist: map<Vertex, real>, rank: map<Vertex, nat>, p: Vertex, v: Vertex) {
    && v in dist && p in dist && v in rank && p in rank
    && HasEdge(g, p, Edge(v, dist[v] - dist[p]))
    && rank[p] < rank[v]
  }

  /** No walk beats the distances found, and every vertex a walk reaches was found. */
  lemma {:induction false} NoWalkIsShorter(g: Graph, s: Vertex, dist: map<Vertex, real>, pred: map<Vertex, Vertex>,
                        rank: map<Vertex, nat>, steps: seq<Edge>)
    requires Found(g, s, dist, pred, rank) && IsWalk(g, s, steps)
    ensures End(s, steps) in dist && dist[End(s, steps)] <= Cost(steps)
  {
    if steps != [] {
      var front := steps[..|steps| - 1];
      NoWalkIsShorter(g, s, dist, pred, rank, front);
      var v := End(s, front);
      assert Relaxed(g, dist, v, |Edges(g, v)|);
      var j :| 0 <= j < |Edges(g, v)| && Edges(g, v)[j] == steps[|steps| - 1];
    }
  }

  /** The way back along the predecessors, turned round. */
  ghost function Chain(pred: map<Vertex, Vertex>, rank: map<Vertex, nat>, v: Vertex): seq<Vertex>
    requires Ranked(pred, rank)
    decreases if v in rank then rank[v] else 0
  {
    if v in pred then Chain(pred, rank, pred[v]) + [v] else [v]
  }

  ghost predicate Ranked(pred: map<Vertex, Vertex>, rank: map<Vertex, nat>) {
    forall v | v in pred :: v in rank && pred[v] in rank && rank[pred[v]] < rank[v]
  }

  lemma FoundIsRanked(g: Graph, s: Vertex, dist: map<Vertex, real>, pred: map<Vertex, Vertex>, rank: map<Vertex, nat>)
    requires Found(g, s, dist, pred, rank)
    ensures Ranked(pred, rank)
  {
    forall v | v in pred ensures v in rank && pred[v] in rank && rank[pred[v]] < rank[v] {
      assert Linked(g, dist, rank, pred[v], v);
    }
  }

  ghost predicate Measured(dist: map<Vertex, real>, pred: map<Vertex, Vertex>) {
    forall u | u in pred :: u in dist && pred[u] in dist
  }

  /** The steps of the chain: its walk. */
  ghost function ChainSteps(dist: map<Vertex, real>, pred: map<Vertex, Vertex>, rank: map<Vertex, nat>, v: Vertex): seq<Edge>
    requires Ranked(pred, rank) && Measured(dist, pred)
    decreases if v in rank then rank[v] else 0
  {
    if v in pred then ChainSteps(dist, pred, rank, pred[v]) + [Edge(v, dist[v] - dist[pred[v]])] else []
  }

  lemma {:induction false} ChainIsWalk(g: Graph, s: Vertex, dist: map<Vertex, real>, pred: map<Vertex, Vertex>,
                                       rank: map<Vertex, nat>, v: Vertex)
    requires Found(g, s, dist, pred, rank) && v in dist
    requires Ranked(pred, rank) && Measured(dist, pred)
    ensures var steps := ChainSteps(dist, pred, rank, v);
            && IsWalk(g, s, steps) && End(s, steps) == v && Cost(steps) == dist[v]
            && Visited(s, steps) == Chain(pred, rank, v)
    decreases if v in rank then rank[v] else 0
  {
    hide Relaxed, HasEdge, Ranked, Measured;
    if v in pred {
      hide IsWalk, Cost, Visited, End;
      assert Linked(g, dist, rank, pred[v], v);
      ChainIsWalk(g, s, dist, pred, rank, pred[v]);
      WalkExtends(g, s, ChainSteps(dist, pred, rank, pred[v]), Edge(v, dist[v] - dist[pred[v]]));
    }
  }

  /** The chain of every found vertex is the vertex list of a shortest walk. */
  lemma ChainIsShortest(g: Graph, s: Vertex, dist: map<Vertex, real>, pred: map<Vertex, Vertex>,
                        rank: map<Vertex, nat>, v: Vertex)
    requires Found(g, s, dist, pred, rank) && v in dist
    requires Ranked(pred, rank)
    ensures exists steps :: IsShortest(g, s, v, steps) && Visited(s, steps) == Chain(pred, rank, v)
  {
    assert Measured(dist, pred) by {
      forall u | u in pred ensures u in dist && pred[u] in dist {
        assert Linked(g, dist, rank, pred[u], u);
      }
    }
    ChainIsWalk(g, s, dist, pred, rank, v);
    var steps := ChainSteps(dist, pred, rank, v);
    forall other | IsWalk(g, s, other) && End(s, other) == v ensures Cost(steps) <= Cost(other) {
      NoWalkIsShorter(g, s, dist, pred, rank, other);
    }
    assert IsShortest(g, s, v, steps);
  }

  lemma FoundIsReachable(g: Graph, s: Vertex, dist: map<Vertex, real>, pred: map<Vertex, Vertex>,
                         rank: map<Vertex, nat>, v: Vertex)
    requires Found(g, s, dist, pred, rank)
    ensures v in dist <==> Reachable(g, s, v)
  {
    if v in dist {
      FoundIsRanked(g, s, dist, pred, rank);
      ChainIsShortest(g, s, dist, pred, rank, v);
    }
    if Reachable(g, s, v) {
      var steps :| IsWalk(g, s, steps) && End(s, steps) == v;
      NoWalkIsShorter(g, s, dist, pred, rank, steps);
    }
  }
}
