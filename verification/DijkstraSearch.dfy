/**
 Dijkstra's search as the QR encoder uses it (`Cs`): the queue keeps entries that later became
 stale, and a vertex is processed again whenever one of its entries is popped.
 */
module DijkstraSearch {
  import opened Outcomes
  import opened PredecessorTree
  import opened PriorityQueue
  import opened Walks

  // ------------------------------------------------------------------ invariant of the search

  /**
   The search between two edges: `rank` numbers the vertices processed so far in the order of their
   processing, and `bound` is the cost popped last.
   */
  datatype Search = Search(dist: map<Vertex, real>, pred: map<Vertex, Vertex>, queue: seq<Entry>,
                           rank: map<Vertex, nat>, bound: real)

  ghost predicate Domains(g: Graph, s: Vertex, st: Search) {
    && s in st.dist && st.dist[s] == 0.0 && s !in st.pred && st.bound >= 0.0
    && st.dist.Keys <= Vertices(g, s)
    && st.rank.Keys <= st.dist.Keys
    && st.dist.Keys == st.pred.Keys + {s}
  }

  ghost predicate Entered(st: Search, e: Entry) {
    e.value in st.dist && st.dist[e.value] <= e.cost && st.bound <= e.cost
  }

  /** No entry is cheaper than its vertex or than the cost popped last. */
  ghost predicate AllEntered(st: Search) {
    forall e | e in st.queue :: Entered(st, e)
  }

  /** `p` was processed before `v` and lies on the best way to `v` found so far. */
  ghost predicate Precedes(g: Graph, st: Search, p: Vertex, v: Vertex) {
    && v in st.dist && p in st.dist && p in st.rank && st.dist[p] <= st.bound
    && HasEdge(g, p, Edge(v, st.dist[v] - st.dist[p]))
    && (v in st.rank ==> st.rank[p] < st.rank[v])
  }

  ghost predicate AllPrecede(g: Graph, st: Search) {
    forall v | v in st.pred :: Precedes(g, st, st.pred[v], v)
  }

  ghost predicate Settled(st: Search, v: Vertex) {
    v in st.dist && v in st.rank && st.dist[v] <= st.bound && st.rank[v] < |st.rank|
  }

  ghost predicate AllSettled(st: Search) {
    forall v | v in st.rank :: Settled(st, v)
  }

  /** All edges of the processed vertices have been looked at, but of `c` only the first `k`. */
  ghost predicate AllRelaxed(g: Graph, st: Search, c: Vertex, k: int) {
    forall v | v in st.rank :: Relaxed(g, st.dist, v, if v == c then k else |Edges(g, v)|)
  }

  ghost predicate Pending(st: Search, v: Vertex) {
    v in st.dist && (v in st.rank || Entry(v, st.dist[v]) in st.queue)
  }

  ghost predicate AllPending(st: Search) {
    forall v | v in st.dist :: Pending(st, v)
  }

  ghost predicate Searching(g: Graph, s: Vertex, st: Search, c: Vertex, k: int) {
    && Domains(g, s, st) && AllEntered(st) && AllPrecede(g, st) && AllSettled(st)
    && AllRelaxed(g, st, c, k) && AllPending(st)
  }

  lemma SearchStarts(g: Graph, s: Vertex)
    ensures Searching(g, s, Search(map[s := 0.0], map[], [Entry(s, 0.0)], map[], 0.0), s, |Edges(g, s)|)
  {
  }

  /** The search after entry `e` has been popped; a vertex popped for the first time gets the next rank. */
  function Popped(st: Search, e: Entry): Search
    requires st.queue != []
  {
    var rank := if e.value in st.rank then st.rank else st.rank[e.value := |st.rank|];
    st.(queue := st.queue[1..], bound := e.cost, rank := rank)
  }

  lemma PopKeepsEntries(st: Search, e: Entry)
    requires AllEntered(st) && AllPending(st)
    requires st.queue != [] && st.queue[0] == e && (forall x | x in st.queue[1..] :: e.cost <= x.cost)
    ensures AllEntered(Popped(st, e)) && AllPending(Popped(st, e)) && Entered(st, e)
    ensures e.value !in st.rank ==> e.cost == st.dist[e.value]
  {
    var st' := Popped(st, e);
    assert st.queue == [e] + st'.queue;
    assert Entered(st, e) && Pending(st, e.value);
    forall x | x in st'.queue ensures Entered(st', x) {
      assert Entered(st, x);
    }
    forall v | v in st'.dist ensures Pending(st', v) {
      assert Pending(st, v);
    }
  }

  lemma PopKeepsOrder(g: Graph, st: Search, e: Entry)
    requires AllPrecede(g, st) && AllSettled(st)
    requires st.queue != [] && Entered(st, e)
    requires e.value !in st.rank ==> e.cost == st.dist[e.value]
    ensures AllPrecede(g, Popped(st, e)) && AllSettled(Popped(st, e))
  {
    hide HasEdge;
    var st' := Popped(st, e);
    if e.value !in st.rank {
      assert |st'.rank| == |st.rank| + 1 by {
        assert st'.rank.Keys == st.rank.Keys + {e.value} && |st'.rank| == |st'.rank.Keys| && |st.rank| == |st.rank.Keys|;
      }
    }
    forall v | v in st'.rank ensures Settled(st', v) {
      assert v != e.value ==> Settled(st, v);
      assert v in st.rank ==> Settled(st, v);
    }
    forall v | v in st'.pred ensures Precedes(g, st', st'.pred[v], v) {
      assert Precedes(g, st, st.pred[v], v);
      assert Settled(st, st.pred[v]);
    }
  }

  lemma PopKeepsDomains(g: Graph, s: Vertex, st: Search, e: Entry)
    requires Domains(g, s, st) && st.queue != [] && Entered(st, e)
    ensures Domains(g, s, Popped(st, e))
  {
    hide Vertices;
  }

  lemma PopKeepsRelaxed(g: Graph, st: Search, c: Vertex, e: Entry)
    requires AllRelaxed(g, st, c, |Edges(g, c)|) && st.queue != []
    ensures AllRelaxed(g, Popped(st, e), e.value, if e.value in st.rank then |Edges(g, e.value)| else 0)
  {
    hide Relaxed;
    var st' := Popped(st, e);
    forall v | v in st'.rank
      ensures Relaxed(g, st'.dist, v, if v != e.value || v in st.rank then |Edges(g, v)| else 0)
    {
      if v in st.rank {
        assert Relaxed(g, st.dist, v, if v == c then |Edges(g, c)| else |Edges(g, v)|);
      } else {
        NothingRelaxed(g, st.dist, v);
      }
    }
  }

  lemma NothingRelaxed(g: Graph, dist: map<Vertex, real>, v: Vertex)
    ensures Relaxed(g, dist, v, 0)
  {
  }

  /** The edge improves on what was known about its end. */
  ghost predicate Improves(st: Search, c: Vertex, e: Edge) {
    c in st.dist && (e.to in st.dist ==> st.dist[e.to] > st.dist[c] + e.cost)
  }

  /** The search after an improving edge of the processed vertex `c`. */
  function Improved(st: Search, c: Vertex, e: Edge, q: seq<Entry>): Search
    requires c in st.dist
  {
    st.(dist := st.dist[e.to := st.dist[c] + e.cost], pred := st.pred[e.to := c], queue := q)
  }

  /** The entries after the push that goes with it. */
  ghost predicate Pushed(q: seq<Entry>, q': seq<Entry>, e: Entry) {
    multiset(q') == multiset(q) + multiset{e}
  }

  lemma PushedMembers(q: seq<Entry>, q': seq<Entry>, e: Entry, x: Entry)
    requires Pushed(q, q', e)
    ensures x in q' <==> x in q || x == e
  {
    assert x in q' <==> x in multiset(q');
  }

  /** Only a vertex not yet processed, and not the source, can be improved. */
  lemma ImprovedIsNew(g: Graph, s: Vertex, st: Search, c: Vertex, e: Edge)
    requires Domains(g, s, st) && AllSettled(st) && c in st.rank && st.bound == st.dist[c]
    requires e.cost >= 0.0 && Improves(st, c, e)
    ensures e.to != s && e.to !in st.rank
  {
    assert e.to in st.rank ==> Settled(st, e.to);
  }

  lemma ImproveKeepsEntries(st: Search, c: Vertex, e: Edge, q: seq<Entry>)
    requires AllEntered(st) && AllPending(st) && c in st.dist && st.bound == st.dist[c]
    requires e.cost >= 0.0 && Improves(st, c, e) && Pushed(st.queue, q, Entry(e.to, st.dist[c] + e.cost))
    ensures AllEntered(Improved(st, c, e, q)) && AllPending(Improved(st, c, e, q))
  {
    hide Pushed;
    var st', l := Improved(st, c, e, q), st.dist[c] + e.cost;
    forall x | x in q ensures Entered(st', x) {
      PushedMembers(st.queue, q, Entry(e.to, l), x);
      assert x in st.queue ==> Entered(st, x);
    }
    forall v | v in st'.dist ensures Pending(st', v) {
      PushedMembers(st.queue, q, Entry(e.to, l), Entry(v, st'.dist[v]));
      assert v != e.to ==> Pending(st, v);
    }
  }

  lemma ImproveKeepsOrder(g: Graph, st: Search, c: Vertex, e: Edge, q: seq<Entry>)
    requires c in st.dist && AllPrecede(g, st) && AllSettled(st) && c in st.rank && st.bound == st.dist[c]
    requires HasEdge(g, c, e) && e.to !in st.rank
    ensures AllPrecede(g, Improved(st, c, e, q)) && AllSettled(Improved(st, c, e, q))
  {
    hide HasEdge;
    var st' := Improved(st, c, e, q);
    assert Settled(st, c);
    forall v | v in st'.rank ensures Settled(st', v) {
      assert Settled(st, v);
    }
    forall v | v in st'.pred ensures Precedes(g, st', st'.pred[v], v) {
      if v == e.to {
        assert Edge(v, st'.dist[v] - st'.dist[c]) == e;
      } else {
        assert Precedes(g, st, st.pred[v], v);
      }
    }
  }

  lemma ImproveRelaxes(g: Graph, st: Search, c: Vertex, k: nat, q: seq<Entry>)
    requires AllRelaxed(g, st, c, k) && c in st.rank && k < |Edges(g, c)| && Improves(st, c, Edges(g, c)[k])
    requires Edges(g, c)[k].to !in st.rank
    ensures AllRelaxed(g, Improved(st, c, Edges(g, c)[k], q), c, k + 1)
  {
    var st' := Improved(st, c, Edges(g, c)[k], q);
    forall v | v in st'.rank ensures Relaxed(g, st'.dist, v, if v == c then k + 1 else |Edges(g, v)|) {
      assert Relaxed(g, st.dist, v, if v == c then k else |Edges(g, v)|);
      forall j | 0 <= j < (if v == c then k + 1 else |Edges(g, v)|) && j < |Edges(g, v)|
        ensures NoShortcut(st'.dist, v, Edges(g, v)[j])
      {
        assert v != c || j < k ==> NoShortcut(st.dist, v, Edges(g, v)[j]);
      }
    }
  }

  lemma EdgeIsNonNegative(g: Graph, c: Vertex, k: nat)
    requires NonNegative(g) && k < |Edges(g, c)|
    ensures HasEdge(g, c, Edges(g, c)[k]) && Edges(g, c)[k].cost >= 0.0
    ensures forall s :: Edges(g, c)[k].to in Vertices(g, s)
  {
    assert c in g && Edges(g, c)[k] in g[c];
  }

  lemma SkipStep(g: Graph, s: Vertex, st: Search, c: Vertex, k: nat)
    requires Searching(g, s, st, c, k) && c in st.dist
    requires k < |Edges(g, c)| && !Improves(st, c, Edges(g, c)[k])
    ensures Searching(g, s, st, c, k + 1)
  {
    hide AllEntered, AllPending, AllPrecede, AllSettled, Domains;
    forall v | v in st.rank ensures Relaxed(g, st.dist, v, if v == c then k + 1 else |Edges(g, v)|) {
      assert Relaxed(g, st.dist, v, if v == c then k else |Edges(g, v)|);
    }
  }

  /**
   The search in the middle of the edges of `c`, popped at the given cost. `start` is the search right
   after the pop; `again` says that `c` had been processed before, and then nothing changes.
   */
  ghost predicate Scanning(g: Graph, s: Vertex, st: Search, start: Search, c: Vertex, cost: real, again: bool, k: int) {
    && c in st.dist && c in st.rank && st.rank == start.rank && st.dist[c] <= cost
    && (if again then st == start else cost == st.dist[c] && st.bound == cost)
    && Searching(g, s, st, c, if again then |Edges(g, c)| else k)
  }

  /** A popped entry is either the true distance of a new vertex, or of a vertex already processed. */
  lemma PopStep(g: Graph, s: Vertex, st: Search, c: Vertex, e: Entry)
    requires Searching(g, s, st, c, |Edges(g, c)|)
    requires st.queue != [] && st.queue[0] == e && (forall x | x in st.queue[1..] :: e.cost <= x.cost)
    ensures Scanning(g, s, Popped(st, e), Popped(st, e), e.value, e.cost, e.value in st.rank, 0)
    ensures Domains(g, s, st) && Entered(st, e)
  {
    hide Domains, AllEntered, AllPending, AllPrecede, AllSettled, AllRelaxed;
    PopKeepsEntries(st, e);
    PopKeepsOrder(g, st, e);
    PopKeepsDomains(g, s, st, e);
    PopKeepsRelaxed(g, st, c, e);
  }

  /** Processing a vertex again improves nothing. */
  lemma NothingToImprove(g: Graph, s: Vertex, st: Search, c: Vertex, k: nat)
    requires Searching(g, s, st, c, |Edges(g, c)|) && c in st.rank && k < |Edges(g, c)|
    ensures NoShortcut(st.dist, c, Edges(g, c)[k])
  {
    assert Relaxed(g, st.dist, c, |Edges(g, c)|);
  }

  /** The test of the source: the edge's end is new, or costs more than by way of `c`. */
  predicate Better(dist: map<Vertex, real>, to: Vertex, cost: real) {
    to !in dist || dist[to] > cost
  }

  lemma ScanImproves(g: Graph, s: Vertex, st: Search, start: Search, c: Vertex, cost: real, again: bool, k: nat, q: seq<Entry>)
    requires NonNegative(g) && Scanning(g, s, st, start, c, cost, again, k) && k < |Edges(g, c)|
    requires var e := Edges(g, c)[k];
             Better(st.dist, e.to, cost + e.cost) && Pushed(st.queue, q, Entry(e.to, cost + e.cost))
    ensures !again && c in st.dist && cost == st.dist[c]
    ensures Scanning(g, s, Improved(st, c, Edges(g, c)[k], q), start, c, cost, again, k + 1)
  {
    hide Pushed, Vertices, NonNegative, Edges, HasEdge, AllEntered, AllPending, AllPrecede, AllSettled, AllRelaxed;
    var e := Edges(g, c)[k];
    if again {
      NothingToImprove(g, s, st, c, k);
      assert false;
    }
    EdgeIsNonNegative(g, c, k);
    ImprovedIsNew(g, s, st, c, e);
    ImproveKeepsEntries(st, c, e, q);
    ImproveKeepsOrder(g, st, c, e, q);
    ImproveRelaxes(g, st, c, k, q);
  }

  lemma ScanSkips(g: Graph, s: Vertex, st: Search, start: Search, c: Vertex, cost: real, again: bool, k: nat)
    requires Scanning(g, s, st, start, c, cost, again, k) && k < |Edges(g, c)|
    requires !Better(st.dist, Edges(g, c)[k].to, cost + Edges(g, c)[k].cost)
    ensures Scanning(g, s, st, start, c, cost, again, k + 1)
  {
    hide Searching, Edges;
    if !again {
      SkipStep(g, s, st, c, k);
    }
  }

  lemma ScanEnds(g: Graph, s: Vertex, st: Search, start: Search, c: Vertex, cost: real, again: bool)
    requires Scanning(g, s, st, start, c, cost, again, |Edges(g, c)|)
    ensures Searching(g, s, st, c, |Edges(g, c)|)
    ensures c in st.dist && c in st.rank && st.rank == start.rank && (again ==> st == start)
  {
  }

  lemma SearchEnds(g: Graph, s: Vertex, st: Search, c: Vertex)
    requires Searching(g, s, st, c, |Edges(g, c)|) && st.queue == []
    ensures Found(g, s, st.dist, st.pred, st.rank)
  {
    hide HasEdge, Vertices, Relaxed, AllPrecede, AllSettled, AllEntered;
    assert st.rank.Keys == st.dist.Keys by {
      forall v | v in st.dist ensures v in st.rank {
        assert Pending(st, v);
      }
    }
    PredecessorsLinked(g, st);
    forall v | v in st.dist ensures Relaxed(g, st.dist, v, |Edges(g, v)|) {
      assert Relaxed(g, st.dist, v, if v == c then |Edges(g, c)| else |Edges(g, v)|);
    }
  }

  lemma PredecessorsLinked(g: Graph, st: Search)
    requires AllPrecede(g, st) && st.rank.Keys == st.dist.Keys
    ensures forall v | v in st.pred :: Linked(g, st.dist, st.rank, st.pred[v], v)
  {
    hide HasEdge;
    forall v | v in st.pred ensures Linked(g, st.dist, st.rank, st.pred[v], v) {
      assert Precedes(g, st, st.pred[v], v);
    }
  }

  // ------------------------------------------------------------------ the search

  /** What makes the search end: a pop ranks a vertex of the graph or leaves a shorter queue. */
  lemma PopShrinks(g: Graph, s: Vertex, st: Search, e: Entry)
    requires Domains(g, s, st) && st.queue != [] && Entered(st, e)
    ensures var st' := Popped(st, e);
            && (e.value in st.rank ==> st'.rank == st.rank && |st'.queue| < |st.queue|)
            && (e.value !in st.rank ==> Vertices(g, s) - st'.rank.Keys < Vertices(g, s) - st.rank.Keys)
  {
    hide Vertices;
    if e.value !in st.rank {
      FewerLeft(Vertices(g, s), st.rank, e.value, |st.rank|);
    }
  }

  lemma FewerLeft(all: set<Vertex>, rank: map<Vertex, nat>, v: Vertex, k: nat)
    requires v in all && v !in rank
    ensures all - rank[v := k].Keys < all - rank.Keys
  {
    assert v in all - rank.Keys;
  }

  /** The inner loop: looks along the edges of a popped vertex and pushes every improvement. */
  method ScanEdges(g: Graph, s: Vertex, e: Entry, queue: Queue, costs0: map<Vertex, real>, pred0: map<Vertex, Vertex>,
                   ghost start: Search, ghost again: bool)
    returns (costs: map<Vertex, real>, pred: map<Vertex, Vertex>, ghost st: Search)
    requires NonNegative(g) && queue.Valid()
    requires start.dist == costs0 && start.pred == pred0 && start.queue == queue.queue
    requires Scanning(g, s, start, start, e.value, e.cost, again, 0)
    modifies queue
    ensures queue.Valid() && st.dist == costs && st.pred == pred && st.queue == queue.queue
    ensures Scanning(g, s, st, start, e.value, e.cost, again, |Edges(g, e.value)|)
  {
    hide Scanning, NonNegative, Edges, Sorted, Insert;
    costs, pred, st := costs0, pred0, start;
    var edges := Edges(g, e.value);
    var i := 0;
    while i < |edges|
      invariant 0 <= i <= |edges| && queue.Valid()
      invariant st.dist == costs && st.pred == pred && st.queue == queue.queue
      invariant Scanning(g, s, st, start, e.value, e.cost, again, i)
    {
      var to, cost := edges[i].to, e.cost + edges[i].cost;
      if to !in costs || costs[to] > cost {
        queue.Push(to, cost);
        ScanImproves(g, s, st, start, e.value, e.cost, again, i, queue.queue);
        st := Improved(st, e.value, edges[i], queue.queue);
        costs, pred := costs[to := cost], pred[to := e.value];
      } else {
        ScanSkips(g, s, st, start, e.value, e.cost, again, i);
      }
      i := i + 1;
    }
  }

  /**
   `single_source_shortest_paths`: the predecessors of all vertices `s` reaches. Throws exactly
   when a target is given that `s` does not reach.
   */
  method SingleSource(g: Graph, s: Vertex, target: Option<Vertex>)
    returns (res: Result<map<Vertex, Vertex>>, ghost dist: map<Vertex, real>, ghost rank: map<Vertex, nat>)
    requires NonNegative(g)
    ensures res.Thrown? <==> target.Some? && !Reachable(g, s, target.value)
    ensures res.Ok? ==> Found(g, s, dist, res.value, rank)
  {
    hide Searching, Domains, Found, Reachable, Vertices, NonNegative, Scanning, Entered, Edges, Sorted;
    var pred: map<Vertex, Vertex> := map[];
    var costs: map<Vertex, real> := map[s := 0.0];
    var queue := new Queue();
    queue.Push(s, 0.0);
    ghost var st, c := Search(costs, pred, queue.queue, map[], 0.0), s;
    SearchStarts(g, s);
    while !queue.Empty()
      invariant queue.Valid() && fresh(queue)
      invariant st.dist == costs && st.pred == pred && st.queue == queue.queue
      invariant Searching(g, s, st, c, |Edges(g, c)|)
      decreases Vertices(g, s) - st.rank.Keys, |st.queue|
    {
      var e := queue.Pop();
      assert st.queue[1..] == queue.queue;
      PopStep(g, s, st, c, e);
      PopShrinks(g, s, st, e);
      ghost var again, start := e.value in st.rank, Popped(st, e);
      costs, pred, st := ScanEdges(g, s, e, queue, costs, pred, start, again);
      c := e.value;
      ScanEnds(g, s, st, start, c, e.cost, again);
    }
    SearchEnds(g, s, st, c);
    dist, rank := costs, st.rank;
    if target.Some? {
      FoundIsReachable(g, s, costs, pred, rank, target.value);
      if target.value !in costs {
        return Thrown, dist, rank;
      }
    }
    res := Ok(pred);
  }
}
