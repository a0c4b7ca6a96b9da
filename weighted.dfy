/** The `WeightedGraph` class: a dictionary from each vertex to its list
    of `(destination, weight)` entries, and Dijkstra's search over it. */
module Weighted {
  import opened GraphModel
  import opened WeightedModel
  import opened DijkstraTheory
  import opened Lex

  /** The order `heapq` keeps its `(distance, vertex)` pairs in: by
      distance, then by vertex name. */
  predicate PairLe(a: (nat, string), b: (nat, string))
  {
    a.0 < b.0 || (a.0 == b.0 && LexLe(a.1, b.1))
  }

  /** `heappop`: the position of a least pair of a non-empty heap. */
  method PopMin(heap: seq<(nat, string)>) returns (i: nat)
    requires |heap| > 0
    ensures i < |heap| && forall j :: 0 <= j < |heap| ==> PairLe(heap[i], heap[j])
  {
    LexLeTotalOrder();
    i := 0;
    for k := 1 to |heap|
      invariant i < k && forall j :: 0 <= j < k ==> PairLe(heap[i], heap[j])
    {
      if !PairLe(heap[i], heap[k]) {
        i := k;
      }
    }
  }

  /** The loop over the entries `es` of a vertex at distance `d`: each
      shorter distance is recorded and pushed. */
  method RelaxEdges(dist: map<string, Dist>, heap: seq<(nat, string)>, d: nat, es: seq<(string, nat)>)
    returns (dist': map<string, Dist>, heap': seq<(nat, string)>)
    requires forall i :: 0 <= i < |es| ==> es[i].0 in dist
    ensures (dist', heap') == RelaxAll(dist, heap, d, es)
  {
    dist', heap' := dist, heap;
    assert es[..0] == [];
    for k := 0 to |es|
      invariant (dist', heap') == RelaxAll(dist, heap, d, es[..k])
    {
      RelaxAllPrefix(dist, heap, d, es, k + 1);
      var (v, w) := es[k];
      var distance := d + w;
      if Improves(distance, dist'[v]) {
        dist' := dist'[v := Fin(distance)];
        heap' := heap' + [(distance, v)];
      }
    }
    assert es[..|es|] == es;
  }

  /** Recording the expansion of a vertex not expanded before. */
  lemma ExpandOnce(expanded: seq<string>, visited: set<string>, u: string)
    requires Distinct(expanded) && (forall v :: v in expanded <==> v in visited) && u !in visited
    ensures Distinct(expanded + [u]) && forall v :: v in expanded + [u] <==> v in visited + {u}
  {
  }

  /** The inner loop of `get_edges()` over the entries `es` of `v`. */
  method AppendEdgesOfW(edges: seq<(string, string, nat)>, v: string, es: seq<(string, nat)>)
    returns (edges': seq<(string, string, nat)>)
    ensures edges' == edges + EdgesOfW(v, es)
  {
    edges' := edges;
    for j := 0 to |es|
      invariant edges' == edges + EdgesOfW(v, es[..j])
    {
      assert es[..j + 1][..j] == es[..j];
      var (d, w) := es[j];
      edges' := edges' + [(v, d, w)];
    }
    assert es[..|es|] == es;
  }

  /** A `WeightedGraph` built by `WeightedGraph()`: `nodes` and `adj` are
      the keys and contents of its `graph` dictionary. */
  class WeightedGraph {
    var nodes: seq<string>
    var adj: map<string, seq<(string, nat)>>

    function State(): WGraph
      reads this
    {
      WGraph(nodes, adj)
    }

    ghost predicate Valid()
      reads this
    {
      WellFormedW(State())
    }

    constructor ()
      ensures Valid() && State() == EmptyWGraph
    {
      nodes := [];
      adj := map[];
    }

    method AddVertexTo(v: string)
      requires Valid()
      modifies this
      ensures Valid() && State() == AddVertexW(old(State()), v)
    {
      if v !in adj {
        nodes := nodes + [v];
        adj := adj[v := []];
      }
    }

    method AddEdgeTo(o: string, d: string, w: nat)
      requires Valid()
      modifies this
      ensures Valid() && State() == AddEdgeW(old(State()), o, d, w)
    {
      AddEdgeWWellFormed(State(), o, d, w);
      if o !in adj {
        AddVertexTo(o);
      }
      if d !in adj {
        AddVertexTo(d);
      }
      adj := adj[o := adj[o] + [(d, w)]];
    }

    /** `get_edges()`. */
    method GetEdges() returns (edges: seq<(string, string, nat)>)
      requires Valid()
      ensures edges == EdgesW(State())
    {
      var g := State();
      edges := [];
      for k := 0 to |g.nodes|
        invariant edges == EdgesUpToW(g, k)
      {
        var v := g.nodes[k];
        edges := AppendEdgesOfW(edges, v, g.adj[v]);
      }
    }

    /** `dijkstra(start)`: the distances are defined on exactly the
        vertices, the start at 0; a finite distance is the least weight of
        a walk from `start`, an infinite one means no walk gets there; on
        return every entry of a reached vertex is relaxed; and the vertices
        expanded, each once, are exactly those reached. */
    method Dijkstra(start: string) returns (distances: map<string, Dist>, ghost expanded: seq<string>)
      requires Valid() && start in adj
      ensures distances.Keys == adj.Keys && distances[start] == Fin(0)
      ensures forall v :: v in distances && distances[v].Fin? ==> Shortest(State(), start, v, distances[v].n)
      ensures forall v, w: nat :: v in distances && Reach(State(), start, v, w) ==> distances[v].Fin?
      ensures forall u, j :: u in distances && distances[u].Fin? && 0 <= j < |adj[u]| ==> Relaxed(distances, u, adj[u][j])
      ensures Distinct(expanded) && forall v :: v in expanded <==> v in distances && distances[v].Fin?
    {
      var g := State();
      var heap: seq<(nat, string)> := [(0, start)];
      var visited: set<string> := {};
      distances := InitDist(g, start);
      expanded := [];
      DStart(g, start);
      while |heap| > 0
        invariant DInv(g, start, distances, heap, visited)
        invariant Distinct(expanded) && forall v :: v in expanded <==> v in visited
        decreases g.adj.Keys - visited, |heap|
      {
        var i := PopMin(heap);
        var (d, u) := heap[i];
        if u in visited {
          PopStale(g, start, distances, heap, visited, i);
          heap := Remove(heap, i);
        } else {
          assert heap[i] in heap;
          assert u in g.adj;
          PopFresh(g, start, distances, heap, visited, i);
          ExpandOnce(expanded, visited, u);
          heap := Remove(heap, i);
          visited := visited + {u};
          expanded := expanded + [u];
          var es := g.adj[u];
          assert es[..|es|] == es;
          RelaxAllMid(g, start, distances, heap, visited, u, |es|, d);
          distances, heap := RelaxEdges(distances, heap, d, es);
          MidDone(g, start, distances, heap, visited, u);
        }
      }
      DijkstraDone(g, start, distances, visited);
    }
  }
}
