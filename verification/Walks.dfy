/**
 Graphs as the shortest-path search takes them, and walks through them.

 Vertices are property names, edges carry costs, and the order in which a vertex's edges are visited is
 left open: an adjacency list may come in any order.
 */
module Walks {

  type Vertex = string

  datatype Edge = Edge(to: Vertex, cost: real)

  type Graph = map<Vertex, seq<Edge>>

  function Edges(g: Graph, v: Vertex): seq<Edge> {
    if v in g then g[v] else []
  }

  ghost predicate NonNegative(g: Graph) {
    forall v, e | v in g && e in g[v] :: e.cost >= 0.0
  }

  ghost predicate HasEdge(g: Graph, v: Vertex, e: Edge) {
    e in Edges(g, v)
  }

  /** The vertex a list of steps from `s` ends at. */
  function End(s: Vertex, steps: seq<Edge>): Vertex {
    if steps == [] then s else steps[|steps| - 1].to
  }

  ghost predicate IsWalk(g: Graph, s: Vertex, steps: seq<Edge>) {
    steps == []
    || (IsWalk(g, s, steps[..|steps| - 1]) && HasEdge(g, End(s, steps[..|steps| - 1]), steps[|steps| - 1]))
  }

  function Cost(steps: seq<Edge>): real {
    if steps == [] then 0.0 else Cost(steps[..|steps| - 1]) + steps[|steps| - 1].cost
  }

  ghost predicate Reachable(g: Graph, s: Vertex, t: Vertex) {
    exists steps :: IsWalk(g, s, steps) && End(s, steps) == t
  }

  /** `steps` leads from `s` to `t`, and nothing that does is cheaper. */
  ghost predicate IsShortest(g: Graph, s: Vertex, t: Vertex, steps: seq<Edge>) {
    && IsWalk(g, s, steps) && End(s, steps) == t
    && forall other | IsWalk(g, s, other) && End(s, other) == t :: Cost(steps) <= Cost(other)
  }

  function Vertices(g: Graph, s: Vertex): set<Vertex> {
    {s} + g.Keys + set v, e | v in g && e in g[v] :: e.to
  }

  /** The vertices a walk visits. */
  function Visited(s: Vertex, steps: seq<Edge>): seq<Vertex> {
    if steps == [] then [s] else Visited(s, steps[..|steps| - 1]) + [steps[|steps| - 1].to]
  }

  lemma WalkExtends(g: Graph, s: Vertex, steps: seq<Edge>, e: Edge)
    requires IsWalk(g, s, steps) && HasEdge(g, End(s, steps), e)
    ensures var longer := steps + [e];
            && IsWalk(g, s, longer) && End(s, longer) == e.to && Cost(longer) == Cost(steps) + e.cost
            && Visited(s, longer) == Visited(s, steps) + [e.to]
  {
    hide HasEdge;
    assert (steps + [e])[..|steps|] == steps;
  }

  lemma VisitedAreVertices(g: Graph, s: Vertex, target: Vertex, steps: seq<Edge>)
    requires IsShortest(g, s, target, steps)
    ensures forall v | v in Visited(s, steps) :: v in Vertices(g, s)
  {
    WalkStaysInGraph(g, s, steps);
  }

  lemma {:induction false} WalkStaysInGraph(g: Graph, s: Vertex, steps: seq<Edge>)
    requires IsWalk(g, s, steps)
    ensures forall v | v in Visited(s, steps) :: v in Vertices(g, s)
  {
    if steps != [] {
      WalkStaysInGraph(g, s, steps[..|steps| - 1]);
      var e := steps[|steps| - 1];
      assert e in g[End(s, steps[..|steps| - 1])];
    }
  }

  lemma EndIsVisited(s: Vertex, steps: seq<Edge>)
    ensures Visited(s, steps) != [] && Visited(s, steps)[|Visited(s, steps)| - 1] == End(s, steps)
  {
  }
}
