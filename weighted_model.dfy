/** The dictionary of a `WeightedGraph` as a value: the vertices in
    insertion order and, for each, its list of `(destination, weight)`
    entries. Weights are natural numbers. */
module WeightedModel {
  import opened GraphModel

  datatype WGraph = WGraph(nodes: seq<string>, adj: map<string, seq<(string, nat)>>)

  const EmptyWGraph: WGraph := WGraph([], map[])

  /** The key list and the dictionary agree, and every entry leads to a
      vertex of the graph, as `add_vertex`/`add_edge` keep it. */
  ghost predicate WellFormedW(g: WGraph)
  {
    Distinct(g.nodes)
    && (forall v :: v in g.nodes ==> v in g.adj)
    && (forall v :: v in g.adj ==> v in g.nodes)
    && (forall u, i :: u in g.adj && 0 <= i < |g.adj[u]| ==> g.adj[u][i].0 in g.adj)
  }

  /** `add_vertex(v)`. */
  function AddVertexW(g: WGraph, v: string): WGraph
  {
    if v in g.adj then g else WGraph(g.nodes + [v], g.adj[v := []])
  }

  /** `add_edge(o, d, w)`: both ends are added if missing and `(d, w)` is
      appended to the list of `o`, even when it is there already. */
  function AddEdgeW(g: WGraph, o: string, d: string, w: nat): WGraph
  {
    var g1 := AddVertexW(AddVertexW(g, o), d);
    WGraph(g1.nodes, g1.adj[o := g1.adj[o] + [(d, w)]])
  }

  /** A vertex is added once, with no entries, and nothing else changes. */
  lemma AddVertexWSpec(g: WGraph, v: string)
    ensures var r := AddVertexW(g, v);
      r.adj.Keys == g.adj.Keys + {v}
      && r.adj[v] == (if v in g.adj then g.adj[v] else [])
      && (forall u :: u in g.adj ==> r.adj[u] == g.adj[u])
  {
  }

  lemma AddVertexWWellFormed(g: WGraph, v: string)
    requires WellFormedW(g)
    ensures WellFormedW(AddVertexW(g, v))
  {
  }

  /** An edge adds its ends as vertices, appends exactly one entry to the
      list of its origin, and leaves every other list alone. */
  lemma AddEdgeWSpec(g: WGraph, o: string, d: string, w: nat)
    ensures var r := AddEdgeW(g, o, d, w);
      r.adj.Keys == g.adj.Keys + {o, d}
      && r.adj[o] == (if o in g.adj then g.adj[o] else []) + [(d, w)]
      && (forall u :: u in r.adj && u != o ==> r.adj[u] == (if u in g.adj then g.adj[u] else []))
  {
  }

  lemma AddEdgeWWellFormed(g: WGraph, o: string, d: string, w: nat)
    requires WellFormedW(g)
    ensures WellFormedW(AddEdgeW(g, o, d, w))
  {
    var g1 := AddVertexW(AddVertexW(g, o), d);
    AddVertexWWellFormed(g, o);
    AddVertexWWellFormed(AddVertexW(g, o), d);
    var r := AddEdgeW(g, o, d, w);
    forall u, i | u in r.adj && 0 <= i < |r.adj[u]|
      ensures r.adj[u][i].0 in r.adj
    {
      if u == o && i == |r.adj[u]| - 1 {
        assert r.adj[u][i] == (d, w);
      } else {
        assert r.adj[u][i] == g1.adj[u][i];
      }
    }
  }

  /** `get_edges()` over the entries `es` of `v`. */
  function EdgesOfW(v: string, es: seq<(string, nat)>): (r: seq<(string, string, nat)>)
    ensures |r| == |es|
  {
    if es == [] then [] else EdgesOfW(v, es[..|es| - 1]) + [(v, es[|es| - 1].0, es[|es| - 1].1)]
  }

  /** `get_edges()` over the first `k` vertices. */
  function EdgesUpToW(g: WGraph, k: nat): seq<(string, string, nat)>
    requires k <= |g.nodes| && forall v :: v in g.nodes ==> v in g.adj
  {
    if k == 0 then [] else EdgesUpToW(g, k - 1) + EdgesOfW(g.nodes[k - 1], g.adj[g.nodes[k - 1]])
  }

  function EdgesW(g: WGraph): seq<(string, string, nat)>
    requires forall v :: v in g.nodes ==> v in g.adj
  {
    EdgesUpToW(g, |g.nodes|)
  }

  /** The `i`-th edge of a list is its `i`-th entry read with the origin. */
  lemma {:induction false} EdgesOfWAt(v: string, es: seq<(string, nat)>, i: nat)
    requires i < |es|
    ensures EdgesOfW(v, es)[i] == (v, es[i].0, es[i].1)
    decreases |es|
  {
    if i < |es| - 1 {
      EdgesOfWAt(v, es[..|es| - 1], i);
    }
  }

  lemma EdgesOfWMember(v: string, es: seq<(string, nat)>, o: string, d: string, w: nat)
    ensures (o, d, w) in EdgesOfW(v, es) <==> o == v && (d, w) in es
  {
    var r := EdgesOfW(v, es);
    if (o, d, w) in r {
      var i :| 0 <= i < |r| && r[i] == (o, d, w);
      EdgesOfWAt(v, es, i);
      assert es[i] == (d, w);
    }
    if o == v && (d, w) in es {
      var i :| 0 <= i < |es| && es[i] == (d, w);
      EdgesOfWAt(v, es, i);
    }
  }

  /** `get_edges()` lists exactly the stored entries, each with its origin:
      a triple is there exactly when `(d, w)` is an entry of `o`. */
  lemma {:induction false} EdgesWMember(g: WGraph, k: nat, o: string, d: string, w: nat)
    requires k <= |g.nodes| && forall v :: v in g.nodes ==> v in g.adj
    ensures (o, d, w) in EdgesUpToW(g, k) <==> o in g.nodes[..k] && (d, w) in g.adj[o]
  {
    if k > 0 {
      EdgesWMember(g, k - 1, o, d, w);
      EdgesOfWMember(g.nodes[k - 1], g.adj[g.nodes[k - 1]], o, d, w);
      assert g.nodes[..k] == g.nodes[..k - 1] + [g.nodes[k - 1]];
    }
  }

  /** The total number of entries of the first `k` vertices. */
  function EntryCountW(g: WGraph, k: nat): nat
    requires k <= |g.nodes| && forall v :: v in g.nodes ==> v in g.adj
  {
    if k == 0 then 0 else EntryCountW(g, k - 1) + |g.adj[g.nodes[k - 1]]|
  }

  /** One edge per stored entry, duplicates included. */
  lemma {:induction false} EdgesWCount(g: WGraph, k: nat)
    requires k <= |g.nodes| && forall v :: v in g.nodes ==> v in g.adj
    ensures |EdgesUpToW(g, k)| == EntryCountW(g, k)
  {
    if k > 0 {
      EdgesWCount(g, k - 1);
    }
  }
}
