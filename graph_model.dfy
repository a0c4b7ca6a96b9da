/** The value behind the `MyGraph` class: a directed graph kept as a
    dictionary from each vertex to its adjacency list. An adjacency entry
    is a vertex name or, for a repeated or labelled edge, a
    `(vertex, label)` tuple. The dictionary keeps its keys in insertion
    order. */
module GraphModel {
  import opened SeqFacts

  /** One adjacency entry: `d` or the tuple `(d, p)`. */
  datatype Entry = Vertex(name: string) | Labelled(name: string, tag: string)

  /** One item of `get_edges`: `(v, d)` or `(v, d, p)`. */
  datatype Edge = Pair(origin: string, target: string) | Triple(origin: string, target: string, tag: string)

  /** The dictionary: `nodes` are its keys in insertion order. */
  datatype Graph = Graph(nodes: seq<string>, adj: map<string, seq<Entry>>)

  const EmptyGraph: Graph := Graph([], map[])

  /** No item of `s` occurs twice. */
  ghost predicate Distinct(s: seq<string>)
  {
    forall i, j :: 0 <= i < j < |s| ==> s[i] != s[j]
  }

  lemma DistinctTail(l: seq<string>)
    requires Distinct(l) && |l| > 0
    ensures Distinct(l[1..])
  {
    forall i, j | 0 <= i < j < |l[1..]|
      ensures l[1..][i] != l[1..][j]
    {
      assert l[1..][i] == l[i + 1] && l[1..][j] == l[j + 1];
    }
  }

  /** Inserting a new item anywhere keeps the items distinct. */
  lemma DistinctInsert(l: seq<string>, s: nat, x: string)
    requires Distinct(l) && x !in l && s <= |l|
    ensures Distinct(l[..s] + [x] + l[s..])
  {
    var l' := l[..s] + [x] + l[s..];
    forall i, j | 0 <= i < j < |l'|
      ensures l'[i] != l'[j]
    {
      if i != s && j != s {
        var i0 := if i < s then i else i - 1;
        var j0 := if j < s then j else j - 1;
        assert l'[i] == l[i0] && l'[j] == l[j0];
      } else if i == s {
        assert l'[j] in l;
      } else {
        assert l'[i] in l;
      }
    }
  }

  /** The shape every graph built by `add_vertex`/`add_edge` keeps: the
      key list and the dictionary agree, and every entry names a vertex of
      the graph. */
  ghost predicate WellFormed(g: Graph)
  {
    Distinct(g.nodes)
    && (forall v :: v in g.nodes ==> v in g.adj)
    && (forall v :: v in g.adj ==> v in g.nodes)
    && (forall v, e :: v in g.adj && e in g.adj[v] ==> e.name in g.adj)
  }

  /** `add_vertex(v)`: a new vertex gets an empty list, an existing one is
      left as it is. */
  function AddVertex(g: Graph, v: string): (r: Graph)
    ensures v in r.adj && (v in g.adj ==> r == g)
    ensures v !in g.adj ==> r.nodes == g.nodes + [v] && r.adj == g.adj[v := []]
  {
    if v in g.adj then g else Graph(g.nodes + [v], g.adj[v := []])
  }

  /** `add_edge(o, d, p)`: the endpoints are added if missing; then `d` is
      appended to the list of `o` when it is not there yet and `p` is
      'bin', and `(d, p)` otherwise. */
  function AddEdge(g: Graph, o: string, d: string, p: string): Graph
  {
    var g1 := AddVertex(AddVertex(g, o), d);
    var e := if Vertex(d) !in g1.adj[o] && p == "bin" then Vertex(d) else Labelled(d, p);
    Graph(g1.nodes, g1.adj[o := g1.adj[o] + [e]])
  }

  lemma AddVertexWellFormed(g: Graph, v: string)
    requires WellFormed(g)
    ensures WellFormed(AddVertex(g, v))
  {
  }

  /** Adding an edge keeps the shape of the graph. */
  lemma AddEdgeWellFormed(g: Graph, o: string, d: string, p: string)
    requires WellFormed(g)
    ensures WellFormed(AddEdge(g, o, d, p))
  {
    var g1 := AddVertex(AddVertex(g, o), d);
    AddVertexWellFormed(g, o);
    AddVertexWellFormed(AddVertex(g, o), d);
    var r := AddEdge(g, o, d, p);
    assert d in g1.adj;
    forall v, e | v in r.adj && e in r.adj[v]
      ensures e.name in r.adj
    {
      if v == o && e !in g1.adj[o] {
        assert e.name == d;
      }
    }
  }

  /** Adding an edge adds its endpoints, leaves the other lists alone and
      appends exactly one entry, for `d`, to the list of `o`: a plain
      one exactly when the label is 'bin' and `d` is not yet listed
      plainly. */
  lemma AddEdgeSpec(g: Graph, o: string, d: string, p: string)
    ensures var r := AddEdge(g, o, d, p);
      r.adj.Keys == g.adj.Keys + {o, d}
      && (forall v :: v in g.adj && v != o ==> r.adj[v] == g.adj[v])
      && |r.adj[o]| == (if o in g.adj then |g.adj[o]| else 0) + 1
      && r.adj[o][|r.adj[o]| - 1].name == d
      && (r.adj[o][|r.adj[o]| - 1] == Vertex(d) <==> p == "bin" && (o !in g.adj || Vertex(d) !in g.adj[o]))
  {
  }

  /** The edge `get_edges` lists for the entry `e` of `v`. */
  function EdgeOf(v: string, e: Entry): Edge
  {
    match e
    case Vertex(d) => Pair(v, d)
    case Labelled(d, p) => Triple(v, d, p)
  }

  /** The entry an edge was read from. */
  function EntryOfEdge(e: Edge): Entry
  {
    match e
    case Pair(_, d) => Vertex(d)
    case Triple(_, d, p) => Labelled(d, p)
  }

  /** The edges listed for one adjacency list. */
  function EdgesOf(v: string, es: seq<Entry>): (r: seq<Edge>)
    ensures |r| == |es|
  {
    if es == [] then [] else EdgesOf(v, es[..|es| - 1]) + [EdgeOf(v, es[|es| - 1])]
  }

  /** `get_edges()` over the first `k` vertices. */
  function EdgesUpTo(g: Graph, k: nat): seq<Edge>
    requires k <= |g.nodes| && forall v :: v in g.nodes ==> v in g.adj
  {
    if k == 0 then [] else EdgesUpTo(g, k - 1) + EdgesOf(g.nodes[k - 1], g.adj[g.nodes[k - 1]])
  }

  function Edges(g: Graph): seq<Edge>
    requires forall v :: v in g.nodes ==> v in g.adj
  {
    EdgesUpTo(g, |g.nodes|)
  }

  /** The total number of adjacency entries of the first `k` vertices. */
  function EntryCount(g: Graph, k: nat): nat
    requires k <= |g.nodes| && forall v :: v in g.nodes ==> v in g.adj
  {
    if k == 0 then 0 else EntryCount(g, k - 1) + |g.adj[g.nodes[k - 1]]|
  }

  /** One edge per stored entry. */
  lemma {:induction false} EdgesCount(g: Graph, k: nat)
    requires k <= |g.nodes| && forall v :: v in g.nodes ==> v in g.adj
    ensures |EdgesUpTo(g, k)| == EntryCount(g, k)
  {
    if k > 0 {
      EdgesCount(g, k - 1);
    }
  }

  /** The `i`-th edge of a list is its `i`-th entry read with the origin. */
  lemma {:induction false} EdgesOfAt(v: string, es: seq<Entry>, i: nat)
    requires i < |es|
    ensures EdgesOf(v, es)[i] == EdgeOf(v, es[i])
    decreases |es|
  {
    if i < |es| - 1 {
      EdgesOfAt(v, es[..|es| - 1], i);
    }
  }

  lemma EdgesOfMember(v: string, es: seq<Entry>, e: Edge)
    ensures e in EdgesOf(v, es) <==> e.origin == v && EntryOfEdge(e) in es
  {
    var r := EdgesOf(v, es);
    if e in r {
      var i :| 0 <= i < |r| && r[i] == e;
      EdgesOfAt(v, es, i);
      assert es[i] == EntryOfEdge(e);
    }
    if e.origin == v && EntryOfEdge(e) in es {
      var i :| 0 <= i < |es| && es[i] == EntryOfEdge(e);
      EdgesOfAt(v, es, i);
      assert EdgeOf(v, es[i]) == e;
    }
  }

  /** `get_edges()` lists exactly the stored entries, each with its origin:
      an edge is there exactly when the entry it reads is stored under its
      origin, `(o, d)` for the plain name `d` and `(o, d, p)` for the tuple
      `(d, p)`. */
  lemma {:induction false} EdgesMember(g: Graph, k: nat, e: Edge)
    requires k <= |g.nodes| && forall v :: v in g.nodes ==> v in g.adj
    ensures e in EdgesUpTo(g, k) <==> e.origin in g.nodes[..k] && EntryOfEdge(e) in g.adj[e.origin]
  {
    if k > 0 {
      EdgesMember(g, k - 1, e);
      EdgesOfMember(g.nodes[k - 1], g.adj[g.nodes[k - 1]], e);
      assert g.nodes[..k] == g.nodes[..k - 1] + [g.nodes[k - 1]];
    }
  }

  /** `n[0]` is defined for a tuple and for a non-empty name; on an empty
      name it raises an IndexError. */
  predicate HasHead(e: Entry)
  {
    e.Labelled? || e.name != ""
  }

  predicate HeadsDefined(es: seq<Entry>)
  {
    forall i :: 0 <= i < |es| ==> HasHead(es[i])
  }

  /** Every list of the graph can be read by `get_predecessors`. */
  ghost predicate AllHeads(g: Graph)
  {
    forall u :: u in g.adj ==> HeadsDefined(g.adj[u])
  }

  /** `n[0]` for an adjacency entry when `id` is None: the first character
      of a plain vertex name, the vertex of a tuple. */
  function Head(e: Entry): string
    requires HasHead(e)
  {
    match e
    case Vertex(v) => v[..1]
    case Labelled(d, _) => d
  }

  /** `get_successors(v)`: the heads of the entries of `v`, in order. */
  function Successors(g: Graph, v: string): (r: seq<string>)
    requires v in g.adj && HeadsDefined(g.adj[v])
    ensures |r| == |g.adj[v]| && forall i :: 0 <= i < |r| ==> r[i] == Head(g.adj[v][i])
  {
    seq(|g.adj[v]|, i requires 0 <= i < |g.adj[v]| => Head(g.adj[v][i]))
  }

  /** The successors `get_successors` is evidently meant to return: the
      vertex each entry names. */
  function Targets(g: Graph, v: string): (r: seq<string>)
    requires v in g.adj
    ensures |r| == |g.adj[v]| && forall i :: 0 <= i < |r| ==> r[i] == g.adj[v][i].name
  {
    seq(|g.adj[v]|, i requires 0 <= i < |g.adj[v]| => g.adj[v][i].name)
  }

  /** In a graph of plain entries the targets of `v` are exactly the
      vertices `v` has an edge to, and each is a vertex of the graph. */
  lemma TargetsAreArcs(g: Graph, v: string)
    requires WellFormed(g) && Simple(g) && v in g.adj
    ensures forall x :: x in Targets(g, v) <==> Arc(g, v, x)
    ensures forall x :: x in Targets(g, v) ==> x in g.adj
  {
    var t := Targets(g, v);
    forall x | x in t
      ensures Arc(g, v, x) && x in g.adj
    {
      var i :| 0 <= i < |t| && t[i] == x;
      var e := g.adj[v][i];
      assert e in g.adj[v];
      assert e.Vertex? && e.name == x;
      assert e == Vertex(x);
    }
    forall x | Arc(g, v, x)
      ensures x in t
    {
      var i :| 0 <= i < |g.adj[v]| && g.adj[v][i] == Vertex(x);
      assert t[i] == x;
    }
  }

  /** Read as written, `get_successors` gives the first character of each
      plain entry: after `add_edge("ab", "cd")` the successors of "ab" are
      ["c"], which is not even a vertex, while the edge goes to "cd". */
  lemma SuccessorsFirstChar()
    ensures var g := AddEdge(EmptyGraph, "ab", "cd", "bin");
      Successors(g, "ab") == ["c"] && "c" !in g.adj && Targets(g, "ab") == ["cd"] && Arc(g, "ab", "cd")
  {
    var g := AddEdge(EmptyGraph, "ab", "cd", "bin");
    assert g.adj["ab"] == [Vertex("cd")];
    assert "cd"[..1] == "c";
  }

  /** The two readings agree on one-character names, the only ones of the
      repository's tests. */
  lemma SuccessorsShortNames(g: Graph, v: string)
    requires v in g.adj && forall i :: 0 <= i < |g.adj[v]| ==> g.adj[v][i].Labelled? || |g.adj[v][i].name| == 1
    ensures HeadsDefined(g.adj[v]) && Successors(g, v) == Targets(g, v)
  {
    forall i | 0 <= i < |g.adj[v]|
      ensures Successors(g, v)[i] == Targets(g, v)[i]
    {
      var e := g.adj[v][i];
      if e.Vertex? {
        assert e.name[..1] == e.name;
      }
    }
  }

  /** The predecessors contributed by one list: `u` once per entry whose
      head is `v`. */
  function PredsIn(u: string, es: seq<Entry>, v: string): seq<string>
    requires HeadsDefined(es)
  {
    if es == [] then []
    else PredsIn(u, es[..|es| - 1], v) + (if Head(es[|es| - 1]) == v then [u] else [])
  }

  /** `get_predecessors(v)` over the first `k` vertices. */
  function PredsUpTo(g: Graph, v: string, k: nat): seq<string>
    requires k <= |g.nodes| && (forall u :: u in g.nodes ==> u in g.adj) && AllHeads(g)
  {
    if k == 0 then [] else PredsUpTo(g, v, k - 1) + PredsIn(g.nodes[k - 1], g.adj[g.nodes[k - 1]], v)
  }

  function Predecessors(g: Graph, v: string): seq<string>
    requires (forall u :: u in g.nodes ==> u in g.adj) && AllHeads(g)
  {
    PredsUpTo(g, v, |g.nodes|)
  }

  /** Some entry of `es` has head `v`. */
  ghost predicate HeadIn(es: seq<Entry>, v: string)
  {
    exists e :: e in es && HasHead(e) && Head(e) == v
  }

  /** `PredsIn` lists only `u`, and lists it exactly when one of the
      entries has head `v`. */
  lemma {:induction false} PredsInMember(u: string, es: seq<Entry>, v: string, x: string)
    requires HeadsDefined(es)
    ensures x in PredsIn(u, es, v) <==> x == u && HeadIn(es, v)
    decreases |es|
  {
    if es != [] {
      PredsInMember(u, es[..|es| - 1], v, x);
      assert forall e :: e in es <==> e in es[..|es| - 1] || e == es[|es| - 1];
    }
  }

  /** `u` is a predecessor of `v` exactly when `u` is a vertex with an
      entry whose head is `v`. */
  lemma {:induction false} PredecessorsMember(g: Graph, v: string, u: string, k: nat)
    requires k <= |g.nodes| && (forall w :: w in g.nodes ==> w in g.adj) && AllHeads(g)
    ensures u in PredsUpTo(g, v, k) <==> u in g.nodes[..k] && HeadIn(g.adj[u], v)
  {
    if k > 0 {
      PredecessorsMember(g, v, u, k - 1);
      PredsInMember(g.nodes[k - 1], g.adj[g.nodes[k - 1]], v, u);
      assert g.nodes[..k] == g.nodes[..k - 1] + [g.nodes[k - 1]];
    }
  }

  /** The adjacency loop of `get_adjacents`: the items of `ys` not yet in
      the list are appended in order. */
  function AddMissing(xs: seq<string>, ys: seq<string>): seq<string>
    decreases |ys|
  {
    if ys == [] then xs
    else AddMissing(if ys[0] in xs then xs else xs + [ys[0]], ys[1..])
  }

  /** `get_adjacents(v)`: the predecessors, then the successors not
      listed yet. */
  function Adjacents(g: Graph, v: string): seq<string>
    requires v in g.adj && (forall u :: u in g.nodes ==> u in g.adj) && AllHeads(g)
  {
    AddMissing(Predecessors(g, v), Successors(g, v))
  }

  /** The adjacency list starts with `xs`, holds exactly the items of both
      lists, and adds no item twice. */
  lemma {:induction false} AddMissingSpec(xs: seq<string>, ys: seq<string>)
    ensures |AddMissing(xs, ys)| >= |xs| && AddMissing(xs, ys)[..|xs|] == xs
    ensures forall x :: x in AddMissing(xs, ys) <==> x in xs || x in ys
    ensures forall i, j :: |xs| <= i < j < |AddMissing(xs, ys)| ==> AddMissing(xs, ys)[i] != AddMissing(xs, ys)[j]
    ensures forall i, j :: 0 <= i < |xs| <= j < |AddMissing(xs, ys)| ==> AddMissing(xs, ys)[i] != AddMissing(xs, ys)[j]
    decreases |ys|
  {
    if ys != [] {
      var xs' := if ys[0] in xs then xs else xs + [ys[0]];
      AddMissingSpec(xs', ys[1..]);
      var r := AddMissing(xs, ys);
      assert r == AddMissing(xs', ys[1..]);
      assert r[..|xs|] == r[..|xs'|][..|xs|];
      assert forall y :: y in ys <==> y == ys[0] || y in ys[1..];
      forall i, j | 0 <= i < |xs| <= j < |r|
        ensures r[i] != r[j]
      {
        if j < |xs'| {
          assert r[j] == ys[0] && ys[0] !in xs && r[i] == xs[i];
        }
      }
    }
  }

  /** `is_in_tuple_list(tl, val)`: some pair starts with `val`. */
  ghost predicate InTupleList<T, U>(tl: seq<(T, U)>, val: T)
  {
    exists i :: 0 <= i < |tl| && tl[i].0 == val
  }


  /** The searches look every adjacency entry up as a vertex, so they
      need plain entries only: a tuple entry would be looked up as a key
      and raise a KeyError. */
  ghost predicate Simple(g: Graph)
  {
    forall v, e :: v in g.adj && e in g.adj[v] ==> e.Vertex?
  }

  /** An edge `x -> y`: `y` is a plain entry of `x`. */
  ghost predicate Arc(g: Graph, x: string, y: string)
  {
    x in g.adj && Vertex(y) in g.adj[x]
  }

  /** Consecutive vertices of `p` are joined by edges. */
  ghost predicate IsWalk(g: Graph, p: seq<string>)
  {
    forall i :: 0 <= i < |p| - 1 ==> Arc(g, p[i], p[i + 1])
  }

  /** A walk of `n` edges leads from `x` to `y`. */
  ghost predicate WalkOfLen(g: Graph, x: string, y: string, n: nat)
  {
    exists p :: |p| == n + 1 && p[0] == x && p[n] == y && IsWalk(g, p)
  }

  /** `y` is reachable from `x` by a walk of at least one edge. */
  ghost predicate Reachable1(g: Graph, x: string, y: string)
  {
    exists n: nat :: 1 <= n && WalkOfLen(g, x, y, n)
  }

  /** `n` is the length of the shortest walk from `x` to `y`. */
  ghost predicate MinWalk(g: Graph, x: string, y: string, n: nat)
  {
    WalkOfLen(g, x, y, n) && forall j: nat :: j < n ==> !WalkOfLen(g, x, y, j)
  }

  lemma WalkNil(g: Graph, x: string, y: string)
    ensures WalkOfLen(g, x, y, 0) <==> x == y
  {
    if x == y {
      assert IsWalk(g, [x]);
    }
  }

  /** A walk of at least one edge ends with an edge from a vertex reached
      one edge earlier (stated as an implication so that it can be used
      to refute a walk). */
  lemma WalkBack(g: Graph, x: string, y: string, n: nat)
    ensures 1 <= n && WalkOfLen(g, x, y, n) ==> exists w :: WalkOfLen(g, x, w, n - 1) && Arc(g, w, y)
  {
    if 1 <= n && WalkOfLen(g, x, y, n) {
      var w := WalkLast(g, x, y, n);
    }
  }

  /** A walk followed by an edge is a walk one edge longer. */
  lemma WalkExtend(g: Graph, x: string, y: string, n: nat, z: string)
    requires WalkOfLen(g, x, y, n) && Arc(g, y, z)
    ensures WalkOfLen(g, x, z, n + 1)
  {
    var p :| |p| == n + 1 && p[0] == x && p[n] == y && IsWalk(g, p);
    var q := p + [z];
    assert IsWalk(g, q) by {
      forall i | 0 <= i < |q| - 1
        ensures Arc(g, q[i], q[i + 1])
      {
        if i < n {
          assert q[i] == p[i] && q[i + 1] == p[i + 1];
        }
      }
    }
    assert |q| == n + 2 && q[0] == x && q[n + 1] == z;
  }

  /** A walk of at least one edge ends with an edge from a vertex reached
      one edge earlier. */
  lemma WalkLast(g: Graph, x: string, y: string, n: nat) returns (w: string)
    requires 1 <= n && WalkOfLen(g, x, y, n)
    ensures WalkOfLen(g, x, w, n - 1) && Arc(g, w, y)
  {
    var p :| |p| == n + 1 && p[0] == x && p[n] == y && IsWalk(g, p);
    w := p[n - 1];
    var q := p[..n];
    assert IsWalk(g, q) by {
      forall i | 0 <= i < |q| - 1
        ensures Arc(g, q[i], q[i + 1])
      {
        assert q[i] == p[i] && q[i + 1] == p[i + 1];
      }
    }
    assert |q| == n && q[0] == x && q[n - 1] == w;
    assert Arc(g, p[n - 1], p[n]);
  }

  /** The vertices of `s` have all their successors in `t`. */
  ghost predicate Expanded(g: Graph, s: set<string>, t: set<string>)
  {
    forall a, b :: a in s && Arc(g, a, b) ==> b in t
  }

  /** A set closed under edges holds every vertex reachable from it. */
  lemma {:induction false} ClosedWalk(g: Graph, s: set<string>, x: string, y: string, n: nat)
    requires x in s && Expanded(g, s, s) && WalkOfLen(g, x, y, n)
    ensures y in s
    decreases n
  {
    if n == 0 {
      WalkNil(g, x, y);
    } else {
      var w := WalkLast(g, x, y, n);
      ClosedWalk(g, s, x, w, n - 1);
    }
  }

  /** In a set closed under edges none of whose vertices has an edge into
      `v`, no walk of at least one edge from the set ends at `v`. */
  lemma ClosedAvoids(g: Graph, s: set<string>, x: string, v: string, n: nat)
    requires x in s && Expanded(g, s, s) && 1 <= n && WalkOfLen(g, x, v, n)
    ensures exists a :: a in s && Arc(g, a, v)
  {
    var w := WalkLast(g, x, v, n);
    ClosedWalk(g, s, x, w, n - 1);
  }

  /** A set closed under edges and holding `x` holds everything reachable
      from `x`. */
  lemma ClosedReach(g: Graph, s: set<string>, x: string, y: string)
    requires x in s && Expanded(g, s, s) && Reachable1(g, x, y)
    ensures y in s
  {
    var n: nat :| 1 <= n && WalkOfLen(g, x, y, n);
    ClosedWalk(g, s, x, y, n);
  }

  /** A successor of `v` or of a vertex reachable from `v` is reachable
      from `v`. */
  lemma ReachStep(g: Graph, v: string, x: string, y: string)
    requires (x == v || Reachable1(g, v, x)) && Arc(g, x, y)
    ensures Reachable1(g, v, y)
  {
    if x == v {
      WalkNil(g, v, v);
      WalkExtend(g, v, v, 0, y);
    } else {
      var n: nat :| 1 <= n && WalkOfLen(g, v, x, n);
      WalkExtend(g, v, x, n, y);
    }
  }
}
