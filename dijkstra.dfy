/** What `dijkstra(start)` computes and why: shortest walk weights over
    non-negative integer weights, with a heap of `(distance, vertex)`
    pairs in which stale pairs are skipped on their way out. */
module DijkstraTheory {
  import opened GraphModel
  import opened WeightedModel

  /** A value of the `distances` dictionary: a number, or
      `float('infinity')`. */
  datatype Dist = Fin(n: nat) | Inf

  /** `distance < distances[neighbor]`. */
  predicate Improves(a: nat, b: Dist)
  {
    b.Inf? || a < b.n
  }

  function Sum(ws: seq<nat>): nat
  {
    if ws == [] then 0 else Sum(ws[..|ws| - 1]) + ws[|ws| - 1]
  }

  /** `p` follows entries of the graph, `ws` holding their weights. */
  ghost predicate WWalk(g: WGraph, p: seq<string>, ws: seq<nat>)
  {
    |p| == |ws| + 1 && forall i :: 0 <= i < |ws| ==> p[i] in g.adj && (p[i + 1], ws[i]) in g.adj[p[i]]
  }

  /** Some walk from `s` to `v` weighs `w`. */
  ghost predicate Reach(g: WGraph, s: string, v: string, w: nat)
  {
    exists p, ws :: WWalk(g, p, ws) && p[0] == s && p[|p| - 1] == v && Sum(ws) == w
  }

  /** `d` is the least weight of a walk from `s` to `v`. */
  ghost predicate Shortest(g: WGraph, s: string, v: string, d: nat)
  {
    Reach(g, s, v, d) && forall w: nat :: Reach(g, s, v, w) ==> d <= w
  }

  /** The entry `e` of `u` is relaxed: its end is at most the weight of
      the entry further than `u`. */
  predicate Relaxed(dist: map<string, Dist>, u: string, e: (string, nat))
  {
    u in dist && e.0 in dist && dist[u].Fin? && dist[e.0].Fin? && dist[e.0].n <= dist[u].n + e.1
  }

  /** The facts that hold throughout, also while the entries of a vertex
      are being relaxed:
      - the distances range over the vertices, the start at 0;
      - every finite distance is the weight of a walk;
      - every heap pair is at least the current distance of its vertex;
      - every vertex with a finite distance not yet expanded has its
        current distance in the heap;
      - every expanded vertex has its final, least distance. */
  ghost predicate Core(g: WGraph, s: string, dist: map<string, Dist>, heap: seq<(nat, string)>, visited: set<string>)
  {
    WellFormedW(g) && s in g.adj && dist.Keys == g.adj.Keys && dist[s] == Fin(0)
    && Walks(g, s, dist) && HeapAbove(dist, heap) && Queued(dist, heap, visited) && Final(g, s, dist, visited)
  }

  ghost predicate Walks(g: WGraph, s: string, dist: map<string, Dist>)
  {
    forall v :: v in dist && dist[v].Fin? ==> Reach(g, s, v, dist[v].n)
  }

  predicate HeapAbove(dist: map<string, Dist>, heap: seq<(nat, string)>)
  {
    forall p :: p in heap ==> p.1 in dist && dist[p.1].Fin? && dist[p.1].n <= p.0
  }

  predicate Queued(dist: map<string, Dist>, heap: seq<(nat, string)>, visited: set<string>)
  {
    forall v :: v in dist && dist[v].Fin? && v !in visited ==> (dist[v].n, v) in heap
  }

  ghost predicate Final(g: WGraph, s: string, dist: map<string, Dist>, visited: set<string>)
  {
    forall v :: v in visited ==> v in dist && dist[v].Fin? && Shortest(g, s, v, dist[v].n)
  }

  /** The state between rounds: every entry of an expanded vertex is
      relaxed. */
  ghost predicate DInv(g: WGraph, s: string, dist: map<string, Dist>, heap: seq<(nat, string)>, visited: set<string>)
  {
    Core(g, s, dist, heap, visited)
    && forall u, j :: u in visited && u in g.adj && 0 <= j < |g.adj[u]| ==> Relaxed(dist, u, g.adj[u][j])
  }

  /** The state after the first `k` entries of the newly expanded `u`
      were relaxed. */
  ghost predicate DMid(g: WGraph, s: string, dist: map<string, Dist>, heap: seq<(nat, string)>, visited: set<string>,
                       u: string, k: nat)
  {
    Core(g, s, dist, heap, visited) && u in visited && u in g.adj && k <= |g.adj[u]|
    && (forall x, j :: x in visited && x != u && x in g.adj && 0 <= j < |g.adj[x]| ==> Relaxed(dist, x, g.adj[x][j]))
    && (forall j :: 0 <= j < k ==> Relaxed(dist, u, g.adj[u][j]))
  }

  /** The distances before the loop: infinite, the start at 0. */
  function InitDist(g: WGraph, s: string): (r: map<string, Dist>)
    ensures r.Keys == g.adj.Keys + {s}
  {
    (map v | v in g.adj :: Inf)[s := Fin(0)]
  }

  /** One entry `(v, w)` of a vertex at distance `d`: a shorter distance
      for `v` is recorded and pushed. */
  function RelaxEdge(dist: map<string, Dist>, heap: seq<(nat, string)>, d: nat, e: (string, nat))
    : (map<string, Dist>, seq<(nat, string)>)
    requires e.0 in dist
  {
    var nd := d + e.1;
    if Improves(nd, dist[e.0]) then (dist[e.0 := Fin(nd)], heap + [(nd, e.0)]) else (dist, heap)
  }

  /** The entries `es`, in order. */
  function RelaxAll(dist: map<string, Dist>, heap: seq<(nat, string)>, d: nat, es: seq<(string, nat)>)
    : (r: (map<string, Dist>, seq<(nat, string)>))
    requires forall i :: 0 <= i < |es| ==> es[i].0 in dist
    ensures r.0.Keys == dist.Keys
  {
    if es == [] then (dist, heap)
    else
      var p := RelaxAll(dist, heap, d, es[..|es| - 1]);
      RelaxEdge(p.0, p.1, d, es[|es| - 1])
  }

  lemma SumSnoc(ws: seq<nat>, w: nat)
    ensures Sum(ws + [w]) == Sum(ws) + w
  {
    assert (ws + [w])[..|ws|] == ws;
  }

  lemma ReachStart(g: WGraph, s: string)
    ensures Reach(g, s, s, 0)
  {
    assert WWalk(g, [s], []);
  }

  /** A walk followed by an entry is a walk heavier by its weight. */
  lemma ReachExtend(g: WGraph, s: string, u: string, d: nat, v: string, w: nat)
    requires Reach(g, s, u, d) && u in g.adj && (v, w) in g.adj[u]
    ensures Reach(g, s, v, d + w)
  {
    var p, ws :| WWalk(g, p, ws) && p[0] == s && p[|p| - 1] == u && Sum(ws) == d;
    var p', ws' := p + [v], ws + [w];
    SumSnoc(ws, w);
    forall i | 0 <= i < |ws'|
      ensures p'[i] in g.adj && (p'[i + 1], ws'[i]) in g.adj[p'[i]]
    {
      if i < |ws| {
        assert p'[i] == p[i] && p'[i + 1] == p[i + 1] && ws'[i] == ws[i];
      }
    }
    assert WWalk(g, p', ws');
  }

  /** The first round starts from the start vertex alone. */
  lemma DStart(g: WGraph, s: string)
    requires WellFormedW(g) && s in g.adj
    ensures DInv(g, s, InitDist(g, s), [(0, s)], {})
  {
    ReachStart(g, s);
  }

  /** The least pair of the heap bounds every walk from `s` that ends
      outside the expanded vertices: such a walk leaves them along a
      relaxed entry, or never entered them and starts at `s`, whose pair
      is in the heap. */
  lemma {:induction false} WalkBound(g: WGraph, s: string, dist: map<string, Dist>, heap: seq<(nat, string)>,
                                     visited: set<string>, d: nat, p: seq<string>, ws: seq<nat>)
    requires DInv(g, s, dist, heap, visited) && forall j :: 0 <= j < |heap| ==> d <= heap[j].0
    requires WWalk(g, p, ws) && p[0] == s && p[|p| - 1] !in visited
    ensures d <= Sum(ws)
    decreases |ws|
  {
    if ws == [] {
      assert (dist[s].n, s) in heap;
    } else {
      var n := |ws|;
      var p0, ws0 := p[..n], ws[..n - 1];
      assert ws == ws0 + [ws[n - 1]];
      SumSnoc(ws0, ws[n - 1]);
      WalkInit(g, p, ws);
      var x, y := p[n - 1], p[n];
      if x !in visited {
        WalkBound(g, s, dist, heap, visited, d, p0, ws0);
      } else {
        assert Reach(g, s, x, Sum(ws0));
        EntryRelaxed(dist, x, g.adj[x], (y, ws[n - 1]));
        assert (dist[y].n, y) in heap;
      }
    }
  }

  /** Removing the pair at `i` from the heap. */
  function Remove(heap: seq<(nat, string)>, i: nat): (r: seq<(nat, string)>)
    requires i < |heap|
    ensures |r| == |heap| - 1
    ensures forall x :: x in heap && x != heap[i] ==> x in r
    ensures forall x :: x in r ==> x in heap
  {
    heap[..i] + heap[i + 1..]
  }

  /** A stale pair, of a vertex already expanded, is dropped without
      changing anything else. */
  lemma PopStale(g: WGraph, s: string, dist: map<string, Dist>, heap: seq<(nat, string)>, visited: set<string>, i: nat)
    requires DInv(g, s, dist, heap, visited) && i < |heap| && heap[i].1 in visited
    ensures DInv(g, s, dist, Remove(heap, i), visited)
  {
    var r := Remove(heap, i);
  }

  /** The least pair of a vertex not yet expanded carries its current
      distance, and that distance is final: expanding it keeps the facts
      of `Core`. */
  lemma PopFresh(g: WGraph, s: string, dist: map<string, Dist>, heap: seq<(nat, string)>, visited: set<string>, i: nat)
    requires DInv(g, s, dist, heap, visited) && i < |heap| && heap[i].1 !in visited
    requires forall j :: 0 <= j < |heap| ==> heap[i].0 <= heap[j].0
    ensures dist[heap[i].1] == Fin(heap[i].0)
    ensures DMid(g, s, dist, Remove(heap, i), visited + {heap[i].1}, heap[i].1, 0)
  {
    var d, u := heap[i].0, heap[i].1;
    assert (dist[u].n, u) in heap;
    forall w: nat | Reach(g, s, u, w)
      ensures d <= w
    {
      var p, ws :| WWalk(g, p, ws) && p[0] == s && p[|p| - 1] == u && Sum(ws) == w;
      WalkBound(g, s, dist, heap, visited, d, p, ws);
    }
    assert Shortest(g, s, u, d);
    var r := Remove(heap, i);
    forall v | v in dist && dist[v].Fin? && v !in visited + {u}
      ensures (dist[v].n, v) in r
    {
      assert (dist[v].n, v) in heap;
    }
  }

  /** Relaxing the next entry of `u` keeps the facts, relaxes that entry,
      and leaves `u` and every other expanded vertex where they were. */
  lemma RelaxEdgeMid(g: WGraph, s: string, dist: map<string, Dist>, heap: seq<(nat, string)>, visited: set<string>,
                     u: string, k: nat, d: nat)
    requires DMid(g, s, dist, heap, visited, u, k) && k < |g.adj[u]| && dist[u] == Fin(d)
    ensures var r := RelaxEdge(dist, heap, d, g.adj[u][k]);
      DMid(g, s, r.0, r.1, visited, u, k + 1) && r.0[u] == Fin(d)
  {
    var e := g.adj[u][k];
    assert e in g.adj[u];
    RelaxCore(g, s, dist, heap, visited, u, d, e);
    var r := RelaxEdge(dist, heap, d, e);
    RelaxedKept(g, dist, r.0, visited, u, k);
  }

  /** Relaxing one entry `e` of the expanded `u` keeps the facts of
      `Core`, changes no expanded vertex, only lowers distances, and
      leaves `e` relaxed. */
  lemma RelaxCore(g: WGraph, s: string, dist: map<string, Dist>, heap: seq<(nat, string)>, visited: set<string>,
                  u: string, d: nat, e: (string, nat))
    requires Core(g, s, dist, heap, visited) && u in visited && dist[u] == Fin(d) && e in g.adj[u]
    ensures e.0 in dist
    ensures var r := RelaxEdge(dist, heap, d, e);
      Core(g, s, r.0, r.1, visited)
      && (forall x :: x in visited ==> r.0[x] == dist[x])
      && (forall x :: x in dist && dist[x].Fin? ==> r.0[x].Fin? && r.0[x].n <= dist[x].n)
      && Relaxed(r.0, u, e)
  {
    var v, nd := e.0, d + e.1;
    var j :| 0 <= j < |g.adj[u]| && g.adj[u][j] == e;
    assert v in g.adj;
    ReachExtend(g, s, u, d, v, e.1);
    var shortest := forall x :: x in visited ==> x in dist && dist[x].Fin? && Shortest(g, s, x, dist[x].n);
    assert shortest;
    ImprovesUnvisited(g, s, dist, visited, v, nd);
    if Improves(nd, dist[v]) {
      LowerCore(g, s, dist, heap, visited, d, e);
    }
    RelaxFrame(dist, heap, visited, u, d, e);
  }

  /** A vertex with a walk lighter than its distance is not expanded. */
  lemma ImprovesUnvisited(g: WGraph, s: string, dist: map<string, Dist>, visited: set<string>, v: string, nd: nat)
    requires forall x :: x in visited ==> x in dist && dist[x].Fin? && Shortest(g, s, x, dist[x].n)
    requires v in dist && Reach(g, s, v, nd)
    ensures Improves(nd, dist[v]) ==> v !in visited
  {
  }

  /** What relaxing `e` does to the distances, whatever the heap. */
  lemma RelaxFrame(dist: map<string, Dist>, heap: seq<(nat, string)>, visited: set<string>, u: string, d: nat, e: (string, nat))
    requires e.0 in dist && u in visited && u in dist && dist[u] == Fin(d)
    requires forall x :: x in visited ==> x in dist
    requires Improves(d + e.1, dist[e.0]) ==> e.0 !in visited
    ensures var r := RelaxEdge(dist, heap, d, e);
      (forall x :: x in visited ==> r.0[x] == dist[x])
      && (forall x :: x in dist && dist[x].Fin? ==> r.0[x].Fin? && r.0[x].n <= dist[x].n)
      && Relaxed(r.0, u, e)
  {
  }

  /** Recording the walk weight `nd` for a vertex not expanded, below its
      current distance, and pushing it, keeps the facts of `Core`. */
  lemma LowerCore(g: WGraph, s: string, dist: map<string, Dist>, heap: seq<(nat, string)>, visited: set<string>,
                  d: nat, e: (string, nat))
    requires Core(g, s, dist, heap, visited) && e.0 in dist && e.0 !in visited && Improves(d + e.1, dist[e.0])
    requires Reach(g, s, e.0, d + e.1)
    ensures var r := RelaxEdge(dist, heap, d, e); Core(g, s, r.0, r.1, visited)
  {
    var v, nd := e.0, d + e.1;
    var dist', heap' := dist[v := Fin(nd)], heap + [(nd, v)];
    RelaxEdgeLowers(dist, heap, d, e);
    assert dist'.Keys == g.adj.Keys;
    assert v != s;
    assert dist'[s] == Fin(0);
    LowerWalks(g, s, dist, v, nd);
    LowerHeap(dist, heap, v, nd);
    LowerQueued(dist, heap, visited, v, nd);
    LowerFinal(g, s, dist, visited, v, nd);
  }

  lemma RelaxEdgeLowers(dist: map<string, Dist>, heap: seq<(nat, string)>, d: nat, e: (string, nat))
    requires e.0 in dist && Improves(d + e.1, dist[e.0])
    ensures RelaxEdge(dist, heap, d, e) == (dist[e.0 := Fin(d + e.1)], heap + [(d + e.1, e.0)])
  {
  }

  lemma LowerWalks(g: WGraph, s: string, dist: map<string, Dist>, v: string, nd: nat)
    requires Walks(g, s, dist) && Reach(g, s, v, nd)
    ensures Walks(g, s, dist[v := Fin(nd)])
  {
  }

  lemma LowerHeap(dist: map<string, Dist>, heap: seq<(nat, string)>, v: string, nd: nat)
    requires HeapAbove(dist, heap) && v in dist && Improves(nd, dist[v])
    ensures HeapAbove(dist[v := Fin(nd)], heap + [(nd, v)])
  {
    var dist', heap' := dist[v := Fin(nd)], heap + [(nd, v)];
    forall p | p in heap'
      ensures p.1 in dist' && dist'[p.1].Fin? && dist'[p.1].n <= p.0
    {
      if p != (nd, v) {
        assert p in heap;
      }
    }
  }

  lemma LowerQueued(dist: map<string, Dist>, heap: seq<(nat, string)>, visited: set<string>, v: string, nd: nat)
    requires Queued(dist, heap, visited)
    ensures Queued(dist[v := Fin(nd)], heap + [(nd, v)], visited)
  {
    var dist', heap' := dist[v := Fin(nd)], heap + [(nd, v)];
    forall x | x in dist' && dist'[x].Fin? && x !in visited
      ensures (dist'[x].n, x) in heap'
    {
      if x != v {
        assert (dist[x].n, x) in heap;
      }
    }
  }

  lemma LowerFinal(g: WGraph, s: string, dist: map<string, Dist>, visited: set<string>, v: string, nd: nat)
    requires Final(g, s, dist, visited) && v !in visited
    ensures Final(g, s, dist[v := Fin(nd)], visited)
  {
  }

  /** Lowering distances of vertices not expanded keeps the relaxed
      entries relaxed. */
  lemma RelaxedKept(g: WGraph, dist: map<string, Dist>, dist': map<string, Dist>, visited: set<string>, u: string, k: nat)
    requires dist'.Keys == dist.Keys && u in visited && u in g.adj && k <= |g.adj[u]|
    requires forall x :: x in visited ==> x in dist && dist'[x] == dist[x]
    requires forall x :: x in dist && dist[x].Fin? ==> dist'[x].Fin? && dist'[x].n <= dist[x].n
    requires forall x, j :: x in visited && x != u && x in g.adj && 0 <= j < |g.adj[x]| ==> Relaxed(dist, x, g.adj[x][j])
    requires forall j :: 0 <= j < k ==> Relaxed(dist, u, g.adj[u][j])
    ensures forall x, j :: x in visited && x != u && x in g.adj && 0 <= j < |g.adj[x]| ==> Relaxed(dist', x, g.adj[x][j])
    ensures forall j :: 0 <= j < k ==> Relaxed(dist', u, g.adj[u][j])
  {
  }

  /** Relaxing the first `k` entries of `u` in order. */
  lemma {:induction false} RelaxAllMid(g: WGraph, s: string, dist: map<string, Dist>, heap: seq<(nat, string)>,
                                       visited: set<string>, u: string, k: nat, d: nat)
    requires DMid(g, s, dist, heap, visited, u, 0) && dist[u] == Fin(d) && k <= |g.adj[u]|
    ensures forall i :: 0 <= i < |g.adj[u][..k]| ==> g.adj[u][..k][i].0 in dist
    ensures var r := RelaxAll(dist, heap, d, g.adj[u][..k]);
      DMid(g, s, r.0, r.1, visited, u, k) && r.0[u] == Fin(d)
  {
    var es := g.adj[u];
    assert forall i :: 0 <= i < |es| ==> es[i].0 in dist;
    if k == 0 {
      assert es[..0] == [];
    } else {
      RelaxAllMid(g, s, dist, heap, visited, u, k - 1, d);
      var p := RelaxAll(dist, heap, d, es[..k - 1]);
      RelaxEdgeMid(g, s, p.0, p.1, visited, u, k - 1, d);
      RelaxAllPrefix(dist, heap, d, es, k);
    }
  }

  /** `RelaxAll` over a prefix is one more step than over the prefix one
      shorter. */
  lemma RelaxAllPrefix(dist: map<string, Dist>, heap: seq<(nat, string)>, d: nat, es: seq<(string, nat)>, k: nat)
    requires 0 < k <= |es| && forall i :: 0 <= i < |es| ==> es[i].0 in dist
    ensures forall i :: 0 <= i < |es[..k]| ==> es[..k][i].0 in dist
    ensures var p := RelaxAll(dist, heap, d, es[..k - 1]);
      es[k - 1].0 in p.0 && RelaxAll(dist, heap, d, es[..k]) == RelaxEdge(p.0, p.1, d, es[k - 1])
  {
    assert es[..k][..k - 1] == es[..k - 1];
  }

  /** All entries of `u` relaxed: the round is over. */
  lemma MidDone(g: WGraph, s: string, dist: map<string, Dist>, heap: seq<(nat, string)>, visited: set<string>, u: string)
    requires u in g.adj && DMid(g, s, dist, heap, visited, u, |g.adj[u]|)
    ensures DInv(g, s, dist, heap, visited)
  {
  }

  /** With the heap empty, every walk from `s` ends at an expanded
      vertex. */
  lemma {:induction false} EndVisited(g: WGraph, s: string, dist: map<string, Dist>, visited: set<string>,
                                      p: seq<string>, ws: seq<nat>)
    requires DInv(g, s, dist, [], visited) && WWalk(g, p, ws) && p[0] == s
    ensures p[|p| - 1] in visited
    decreases |ws|
  {
    if ws == [] {
      assert (dist[s].n, s) !in [];
    } else {
      var n := |ws|;
      var p0, ws0 := p[..n], ws[..n - 1];
      WalkInit(g, p, ws);
      EndVisited(g, s, dist, visited, p0, ws0);
      var x, y := p[n - 1], p[n];
      EntryRelaxed(dist, x, g.adj[x], (y, ws[n - 1]));
      assert (dist[y].n, y) !in [];
    }
  }

  /** A walk without its last step is a walk. */
  lemma WalkInit(g: WGraph, p: seq<string>, ws: seq<nat>)
    requires WWalk(g, p, ws) && |ws| > 0
    ensures WWalk(g, p[..|ws|], ws[..|ws| - 1])
  {
    var n := |ws|;
    var p0, ws0 := p[..n], ws[..n - 1];
    forall i | 0 <= i < |ws0|
      ensures p0[i] in g.adj && (p0[i + 1], ws0[i]) in g.adj[p0[i]]
    {
      assert p0[i] == p[i] && p0[i + 1] == p[i + 1] && ws0[i] == ws[i];
    }
  }

  /** An entry of a list whose entries are all relaxed is relaxed. */
  lemma EntryRelaxed(dist: map<string, Dist>, x: string, es: seq<(string, nat)>, e: (string, nat))
    requires e in es && forall j :: 0 <= j < |es| ==> Relaxed(dist, x, es[j])
    ensures Relaxed(dist, x, e)
  {
    var j :| 0 <= j < |es| && es[j] == e;
  }

  /** When the heap is empty the distances are final: the least walk
      weight for every vertex reached, infinity exactly for the vertices
      no walk reaches, every entry of a reached vertex relaxed, and the
      expanded vertices are exactly the reached ones. */
  lemma DijkstraDone(g: WGraph, s: string, dist: map<string, Dist>, visited: set<string>)
    requires DInv(g, s, dist, [], visited)
    ensures forall v :: v in dist && dist[v].Fin? ==> Shortest(g, s, v, dist[v].n)
    ensures forall v, w: nat :: v in dist && Reach(g, s, v, w) ==> dist[v].Fin?
    ensures forall v :: v in visited <==> v in dist && dist[v].Fin?
    ensures forall u, j :: u in dist && dist[u].Fin? && 0 <= j < |g.adj[u]| ==> Relaxed(dist, u, g.adj[u][j])
  {
    forall v | v in dist && dist[v].Fin?
      ensures v in visited
    {
      assert (dist[v].n, v) !in [];
    }
    forall v, w: nat | v in dist && Reach(g, s, v, w)
      ensures dist[v].Fin?
    {
      var p, ws :| WWalk(g, p, ws) && p[0] == s && p[|p| - 1] == v && Sum(ws) == w;
      EndVisited(g, s, dist, visited, p, ws);
    }
  }
}
