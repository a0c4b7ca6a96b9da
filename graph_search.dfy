/** The invariant shared by the searches `reachable_bfs` and
    `reachable_dfs` of `MyGraph`, and the lemmas that carry it through one
    round: take a vertex off the queue, report it, and queue its unseen
    successors. */
module GraphSearch {
  import opened SeqFacts
  import opened GraphModel

  /** The vertices a search has seen: those reported, those queued, and
      the start. */
  ghost function Seen(v: string, res: seq<string>, l: seq<string>): set<string>
  {
    (set x | x in res) + (set x | x in l) + {v}
  }

  /** The lists of a search hold distinct vertices reachable from `v`;
      only the queue may hold `v` itself. */
  ghost predicate SearchSound(g: Graph, v: string, res: seq<string>, l: seq<string>)
  {
    v in g.adj && Distinct(res) && Distinct(l) && v !in res
    && (forall x :: x in res ==> x !in l)
    && (forall x :: x in res ==> x in g.adj && Reachable1(g, v, x))
    && (forall x :: x in l ==> x in g.adj && (x == v || Reachable1(g, v, x)))
  }

  /** What a search keeps between rounds: its lists are sound, and every
      vertex already expanded has all its successors seen. Before the
      first round nothing is expanded and the queue is `[v]`; afterwards
      the expanded vertices are `v` and those reported. */
  ghost predicate SearchInv(g: Graph, v: string, res: seq<string>, l: seq<string>, started: bool)
  {
    SearchSound(g, v, res, l)
    && (started ==> Expanded(g, (set x | x in res) + {v}, Seen(v, res, l)))
    && (!started ==> res == [] && l == [v])
  }

  /** A search while it walks the entries of `node`: the vertices
      expanded before, `expanded`, still have their successors seen, and
      `node` is `v` or reported. */
  ghost predicate SearchMid(g: Graph, v: string, res: seq<string>, l: seq<string>, expanded: set<string>, node: string)
  {
    SearchSound(g, v, res, l) && Expanded(g, expanded, Seen(v, res, l))
    && node in g.adj && (node == v || node in res) && (node == v || Reachable1(g, v, node))
  }

  /** The vertices the walk over the entries `es` of `node` queues, in
      order: those neither reported, nor queued before (`known`), nor
      queued by an earlier entry, and, when `skipNode` holds, other than
      `node` itself. */
  function Fresh(known: seq<string>, res: seq<string>, node: string, es: seq<Entry>, skipNode: bool): seq<string>
  {
    if es == [] then []
    else
      var pre := Fresh(known, res, node, es[..|es| - 1], skipNode);
      var e := es[|es| - 1].name;
      if e !in res && e !in known && e !in pre && (skipNode ==> e != node) then pre + [e] else pre
  }

  /** Taking the first vertex `node` off the queue (and reporting it
      unless it is `v`) starts its expansion without losing anything
      seen. */
  lemma SearchPop(g: Graph, v: string, res: seq<string>, l: seq<string>, started: bool)
    requires SearchInv(g, v, res, l, started) && |l| > 0
    ensures var node := l[0];
      var res' := if node != v then res + [node] else res;
      var expanded := if started then (set x | x in res) + {v} else {};
      node in g.adj && node !in res
      && SearchMid(g, v, res', l[1..], expanded, node)
      && (set x | x in res') + {v} == expanded + {node}
  {
    var node := l[0];
    var res' := if node != v then res + [node] else res;
    assert forall y :: y in l <==> y == node || y in l[1..];
    assert forall y :: y in res' <==> y in res || (node != v && y == node);
    assert Seen(v, res', l[1..]) == Seen(v, res, l);
    DistinctTail(l);
  }

  /** An entry of a simple well-formed graph is an edge to a vertex. */
  lemma EntryArc(g: Graph, node: string, i: nat)
    requires WellFormed(g) && Simple(g) && node in g.adj && i < |g.adj[node]|
    ensures Arc(g, node, g.adj[node][i].name) && g.adj[node][i].name in g.adj
  {
    assert g.adj[node][i] in g.adj[node];
  }

  /** What `Fresh` queues: distinct vertices, none reported or queued
      before, each named by an entry; and every entry is then reported,
      queued, or (when skipped) `node`. */
  lemma {:induction false} FreshFacts(known: seq<string>, res: seq<string>, node: string, es: seq<Entry>, skipNode: bool)
    ensures var f := Fresh(known, res, node, es, skipNode);
      Distinct(f)
      && (forall x :: x in f ==> x !in res && x !in known && (skipNode ==> x != node))
      && (forall x :: x in f ==> exists j :: 0 <= j < |es| && es[j].name == x)
      && (forall j :: 0 <= j < |es| ==> es[j].name in res || es[j].name in known || es[j].name in f
                                        || (skipNode && es[j].name == node))
    decreases |es|
  {
    if es != [] {
      var es' := es[..|es| - 1];
      FreshFacts(known, res, node, es', skipNode);
      var pre := Fresh(known, res, node, es', skipNode);
      var e := es[|es| - 1].name;
      if e !in res && e !in known && e !in pre && (skipNode ==> e != node) {
        DistinctInsert(pre, |pre|, e);
        assert pre[..|pre|] + [e] + pre[|pre|..] == pre + [e];
      }
      forall x | x in Fresh(known, res, node, es, skipNode)
        ensures exists j :: 0 <= j < |es| && es[j].name == x
      {
        if x in pre {
          var j :| 0 <= j < |es'| && es'[j].name == x;
          assert es[j] == es'[j];
        } else {
          assert es[|es| - 1].name == x;
        }
      }
      forall j | 0 <= j < |es| - 1
        ensures es[j].name == es'[j].name
      {
      }
    }
  }

  /** The successors of `node` that the walk over its entries queues are
      sound additions to the search. */
  lemma FreshArcs(g: Graph, v: string, res: seq<string>, known: seq<string>, node: string, skipNode: bool)
    requires WellFormed(g) && Simple(g) && node in g.adj
    ensures var f := Fresh(known, res, node, g.adj[node], skipNode);
      (forall x :: x in f ==> Arc(g, node, x) && x in g.adj)
      && (forall b :: Arc(g, node, b) ==> b in res || b in known || b in f || b == node)
  {
    var es := g.adj[node];
    FreshFacts(known, res, node, es, skipNode);
    forall x | x in Fresh(known, res, node, es, skipNode)
      ensures Arc(g, node, x) && x in g.adj
    {
      var j :| 0 <= j < |es| && es[j].name == x;
      EntryArc(g, node, j);
    }
    forall b | Arc(g, node, b)
      ensures b in res || b in known || b in Fresh(known, res, node, es, skipNode) || b == node
    {
      ArcEntry(g, node, b);
    }
  }

  /** Every edge out of `node` is one of its entries. */
  lemma ArcEntry(g: Graph, node: string, b: string)
    requires Arc(g, node, b)
    ensures exists j :: 0 <= j < |g.adj[node]| && g.adj[node][j].name == b
  {
    var j :| 0 <= j < |g.adj[node]| && g.adj[node][j] == Vertex(b);
  }

  /** After walking all entries of `node`, with the new vertices queued
      at the back, `node` is expanded and the invariant holds again; a
      re-expansion of `v` queues nothing. */
  lemma SearchExpand(g: Graph, v: string, res: seq<string>, known: seq<string>,
                     expanded: set<string>, node: string, skipNode: bool)
    requires WellFormed(g) && Simple(g) && SearchMid(g, v, res, known, expanded, node)
    requires (set x | x in res) + {v} == expanded + {node}
    requires !skipNode && node == v ==> !Arc(g, v, v)
    ensures var f := Fresh(known, res, node, g.adj[node], skipNode);
      SearchInv(g, v, res, known + f, true) && (v in expanded && node == v ==> f == [])
  {
    var f := Fresh(known, res, node, g.adj[node], skipNode);
    FreshFacts(known, res, node, g.adj[node], skipNode);
    FreshArcs(g, v, res, known, node, skipNode);
    ExpandSound(g, v, res, known, node, f);
    ExpandClosed(g, v, res, known, expanded, node, f);
    FreshNone(g, v, res, known, expanded, node, skipNode);
  }

  /** Queueing new successors of `node` keeps the lists sound. */
  lemma ExpandSound(g: Graph, v: string, res: seq<string>, known: seq<string>, node: string, f: seq<string>)
    requires SearchSound(g, v, res, known) && (node == v || Reachable1(g, v, node))
    requires Distinct(f) && forall x :: x in f ==> x !in res && x !in known && Arc(g, node, x) && x in g.adj
    ensures SearchSound(g, v, res, known + f)
  {
    DistinctConcat(known, f);
    forall x | x in f
      ensures Reachable1(g, v, x)
    {
      ReachStep(g, v, node, x);
    }
  }

  /** Once all successors of `node` are reported, queued or `node`
      itself, `node` joins the expanded vertices. */
  lemma ExpandClosed(g: Graph, v: string, res: seq<string>, known: seq<string>, expanded: set<string>,
                     node: string, f: seq<string>)
    requires Expanded(g, expanded, Seen(v, res, known)) && (node == v || node in res)
    requires forall b :: Arc(g, node, b) ==> b in res || b in known || b in f || b == node
    ensures Expanded(g, expanded + {node}, Seen(v, res, known + f))
  {
    assert Seen(v, res, known + f) == Seen(v, res, known) + (set x | x in f);
  }

  /** Re-expanding `v` queues nothing: all its successors were seen. */
  lemma FreshNone(g: Graph, v: string, res: seq<string>, known: seq<string>,
                  expanded: set<string>, node: string, skipNode: bool)
    requires WellFormed(g) && Simple(g) && SearchMid(g, v, res, known, expanded, node)
    requires !skipNode && node == v ==> !Arc(g, v, v)
    ensures v in expanded && node == v ==> Fresh(known, res, node, g.adj[node], skipNode) == []
  {
    var f := Fresh(known, res, node, g.adj[node], skipNode);
    FreshFacts(known, res, node, g.adj[node], skipNode);
    FreshArcs(g, v, res, known, node, skipNode);
    if |f| > 0 {
      assert f[0] in f;
    }
  }

  /** Two lists of distinct items with no item in common join into one. */
  lemma DistinctConcat(a: seq<string>, b: seq<string>)
    requires Distinct(a) && Distinct(b) && forall x :: x in b ==> x !in a
    ensures Distinct(a + b) && Distinct(b + a)
  {
    forall i, j | 0 <= i < j < |a + b|
      ensures (a + b)[i] != (a + b)[j]
    {
      if i < |a| && j >= |a| {
        assert (a + b)[j] == b[j - |a|] && b[j - |a|] in b;
      }
    }
    forall i, j | 0 <= i < j < |b + a|
      ensures (b + a)[i] != (b + a)[j]
    {
      if i < |b| && j >= |b| {
        assert (b + a)[i] == b[i] && b[i] in b;
      }
    }
  }

  /** The invariant does not depend on the order of the queue's two
      parts, so queueing at the front, as `reachable_dfs` does, keeps it
      too. */
  lemma SearchInvSwap(g: Graph, v: string, res: seq<string>, a: seq<string>, b: seq<string>)
    requires SearchInv(g, v, res, a + b, true)
    ensures SearchInv(g, v, res, b + a, true)
  {
    DistinctSwap(a, b);
    assert forall x :: x in a + b <==> x in b + a;
    assert Seen(v, res, a + b) == Seen(v, res, b + a);
  }

  lemma DistinctSwap(a: seq<string>, b: seq<string>)
    requires Distinct(a + b)
    ensures Distinct(b + a)
  {
    assert Distinct(a) by {
      forall i, j | 0 <= i < j < |a|
        ensures a[i] != a[j]
      {
        assert (a + b)[i] == a[i] && (a + b)[j] == a[j];
      }
    }
    assert Distinct(b) by {
      forall i, j | 0 <= i < j < |b|
        ensures b[i] != b[j]
      {
        assert (a + b)[|a| + i] == b[i] && (a + b)[|a| + j] == b[j];
      }
    }
    forall i, j | 0 <= i < |a| && 0 <= j < |b|
      ensures a[i] != b[j]
    {
      assert (a + b)[i] == a[i] && (a + b)[|a| + j] == b[j];
    }
    DistinctConcat(a, b);
  }

  /** Reporting a new vertex shrinks the set of vertices not reported. */
  lemma ReportShrinks(keys: set<string>, res: seq<string>, node: string)
    requires node in keys && node !in res
    ensures keys - (set x | x in res + [node]) < keys - (set x | x in res)
  {
    assert node in keys - (set x | x in res);
    assert (set x | x in res + [node]) == (set x | x in res) + {node};
  }

  /** When the queue is empty the reported vertices are exactly those
      reachable from `v`, other than `v`. */
  lemma SearchDone(g: Graph, v: string, res: seq<string>)
    requires SearchInv(g, v, res, [], true)
    ensures forall x :: x in res <==> x != v && Reachable1(g, v, x)
  {
    var s := (set x | x in res) + {v};
    assert Seen(v, res, []) == s;
    forall x | x != v && Reachable1(g, v, x)
      ensures x in res
    {
      ClosedReach(g, s, v, x);
    }
  }

  /** The queue after one round that pops `node` and reports `res`:
      the new successors go behind the rest of the queue in the
      breadth-first search and in front of it in the depth-first one
      (`front`). */
  function NextQueue(rest: seq<string>, res: seq<string>, node: string, es: seq<Entry>, front: bool): seq<string>
  {
    if front then Fresh(rest, res, node, es, false) + rest else rest + Fresh(rest, res, node, es, true)
  }

  /** One round of either search keeps the invariant and makes progress:
      it reports a new vertex, or it is the first round, or it pops `v`
      again and queues nothing. */
  lemma SearchRound(g: Graph, v: string, res: seq<string>, l: seq<string>, started: bool, front: bool)
    requires WellFormed(g) && Simple(g) && SearchInv(g, v, res, l, started) && (front ==> !Arc(g, v, v)) && |l| > 0
    ensures var node := l[0];
      var res' := if node != v then res + [node] else res;
      var l' := NextQueue(l[1..], res', node, g.adj[node], front);
      node in g.adj && SearchInv(g, v, res', l', true)
      && (node != v ==> g.adj.Keys - (set x | x in res') < g.adj.Keys - (set x | x in res))
      && (started && node == v ==> |l'| < |l|)
  {
    var expanded := if started then (set x | x in res) + {v} else {};
    SearchPop(g, v, res, l, started);
    var node := l[0];
    var res' := if node != v then res + [node] else res;
    SearchExpand(g, v, res', l[1..], expanded, node, !front);
    if front {
      SearchInvSwap(g, v, res', l[1..], Fresh(l[1..], res', node, g.adj[node], false));
    }
    if node != v {
      ReportShrinks(g.adj.Keys, res, node);
    }
  }

  /** The vertices a search reports from the state `res`, `l`, in order:
      each round pops the head of the queue, reports it unless it is `v`,
      and queues its successors not yet seen, behind the queue for
      `reachable_bfs` and in front of it for `reachable_dfs` (`front`). */
  ghost function SearchOrder(g: Graph, v: string, res: seq<string>, l: seq<string>, started: bool, front: bool): (r: seq<string>)
    requires WellFormed(g) && Simple(g) && SearchInv(g, v, res, l, started) && (front ==> !Arc(g, v, v))
    ensures res <= r
    decreases if started then 0 else 1, g.adj.Keys - (set x | x in res), |l|
  {
    if |l| == 0 then res
    else
      SearchRound(g, v, res, l, started, front);
      var node := l[0];
      var res' := if node != v then res + [node] else res;
      SearchOrder(g, v, res', NextQueue(l[1..], res', node, g.adj[node], front), true, front)
  }

  /** The graph the unit tests of both searches build: vertices A, B, C,
      D and the edges A -> B, B -> C, A -> D. */
  function SearchTestGraph(): Graph
  {
    Graph(["A", "B", "C", "D"], map["A" := [Vertex("B"), Vertex("D")], "B" := [Vertex("C")], "C" := [], "D" := []])
  }

  /** The start of either search on that graph meets the requirements
      of `SearchOrder`. */
  lemma SearchTestStart()
    ensures var g := SearchTestGraph();
      WellFormed(g) && Simple(g) && SearchInv(g, "A", [], ["A"], false) && !Arc(g, "A", "A")
  {
    var g := SearchTestGraph();
    assert g.adj.Keys == {"A", "B", "C", "D"};
    forall v, e | v in g.adj && e in g.adj[v]
      ensures e.Vertex? && e.name in g.adj
    {
      assert v == "A" || v == "B" || v == "C" || v == "D";
    }
  }

  /** One round of a search, as `SearchOrder` takes it. */
  lemma OrderStep(g: Graph, v: string, res: seq<string>, l: seq<string>, started: bool, front: bool,
                  res': seq<string>, l': seq<string>)
    requires WellFormed(g) && Simple(g) && SearchInv(g, v, res, l, started) && (front ==> !Arc(g, v, v)) && |l| > 0
    requires res' == (if l[0] != v then res + [l[0]] else res)
    requires l' == NextQueue(l[1..], res', l[0], g.adj[l[0]], front)
    ensures SearchInv(g, v, res', l', true)
    ensures SearchOrder(g, v, res, l, started, front) == SearchOrder(g, v, res', l', true, front)
  {
    SearchRound(g, v, res, l, started, front);
  }

  /** The vertices the searches queue on that graph when they expand A
      and then B. */
  lemma SearchTestQueues()
    ensures var g := SearchTestGraph();
      NextQueue(["A"][1..], [], "A", g.adj["A"], false) == ["B", "D"]
      && NextQueue(["A"][1..], [], "A", g.adj["A"], true) == ["B", "D"]
      && NextQueue(["D"], ["B"], "B", g.adj["B"], false) == ["D", "C"]
      && NextQueue(["D"], ["B"], "B", g.adj["B"], true) == ["C", "D"]
      && g.adj["C"] == [] && g.adj["D"] == []
      && NextQueue(["C"], ["B", "D"], "D", g.adj["D"], false) == ["C"]
      && NextQueue(["D"], ["B", "C"], "C", g.adj["C"], true) == ["D"]
  {
    var es := [Vertex("B"), Vertex("D")];
    assert es[..1] == [Vertex("B")] && es[..1][..0] == [];
    assert ["A"][1..] == [];
    assert Fresh([], [], "A", es[..1], true) == ["B"] && Fresh([], [], "A", es[..1], false) == ["B"];
  }

  /** On that graph the breadth-first search reports B, D, C, as its unit
      test expects. */
  lemma BfsOrderExample()
    ensures var g := SearchTestGraph();
      WellFormed(g) && Simple(g) && SearchOrder(g, "A", [], ["A"], false, false) == ["B", "D", "C"]
  {
    var g := SearchTestGraph();
    SearchTestStart();
    SearchTestQueues();
    OrderStep(g, "A", [], ["A"], false, false, [], ["B", "D"]);
    OrderFork(g, "A", "B", "C", "D", false);
  }

  /** The depth-first search on the same graph reports B, C, D: the
      successor C of B is queued in front of D instead of behind it. */
  lemma DfsOrderExample()
    ensures var g := SearchTestGraph();
      WellFormed(g) && Simple(g) && !Arc(g, "A", "A") && SearchOrder(g, "A", [], ["A"], false, true) == ["B", "C", "D"]
  {
    var g := SearchTestGraph();
    SearchTestStart();
    SearchTestQueues();
    OrderStep(g, "A", [], ["A"], false, true, [], ["B", "D"]);
    OrderFork(g, "A", "B", "C", "D", true);
  }

  /** A search whose queue holds `b` and then `d`, where `b` has the one
      successor `c` and neither `c` nor `d` has any, reports `b`, `d`, `c`
      breadth-first and `b`, `c`, `d` depth-first. */
  lemma OrderFork(g: Graph, v: string, b: string, c: string, d: string, front: bool)
    requires WellFormed(g) && Simple(g) && (front ==> !Arc(g, v, v)) && SearchInv(g, v, [], [b, d], true)
    requires b in g.adj && c in g.adj && d in g.adj && g.adj[b] == [Vertex(c)] && g.adj[c] == [] && g.adj[d] == []
    requires b != v && c != v && d != v && b != c && c != d
    ensures SearchOrder(g, v, [], [b, d], true, front) == if front then [b, c, d] else [b, d, c]
  {
    assert [Vertex(c)][..0] == [] && [b, d][1..] == [d];
    assert Fresh([d], [b], b, [Vertex(c)], !front) == [c];
    var q := NextQueue([b, d][1..], [b], b, g.adj[b], front);
    assert q == if front then [c, d] else [d, c];
    OrderStep(g, v, [], [b, d], true, front, [b], q);
    if front {
      OrderTwoLeaves(g, v, [b], c, d, front);
    } else {
      OrderTwoLeaves(g, v, [b], d, c, front);
    }
  }

  /** A search whose queue holds two vertices without successors, other
      than `v`, reports them in queue order and stops. */
  lemma OrderTwoLeaves(g: Graph, v: string, res: seq<string>, x: string, y: string, front: bool)
    requires WellFormed(g) && Simple(g) && (front ==> !Arc(g, v, v)) && SearchInv(g, v, res, [x, y], true)
    requires x != v && y != v && x in g.adj && y in g.adj && g.adj[x] == [] && g.adj[y] == []
    ensures SearchOrder(g, v, res, [x, y], true, front) == res + [x, y]
  {
    assert NextQueue([x, y][1..], res + [x], x, g.adj[x], front) == [y];
    OrderStep(g, v, res, [x, y], true, front, res + [x], [y]);
    assert NextQueue([y][1..], res + [x, y], y, g.adj[y], front) == [];
    assert res + [x] + [y] == res + [x, y];
    OrderStep(g, v, res + [x], [y], true, front, res + [x, y], []);
  }

  /** What `node_has_cycle(v)` keeps between rounds: every visited vertex
      is `v` or reachable from `v`; the queue holds distinct visited
      vertices not yet expanded; every other visited vertex is expanded,
      and the expanded ones have all their successors visited and no edge
      back to `v`. */
  ghost predicate CycleInv(g: Graph, v: string, l: seq<string>, visited: seq<string>, expanded: set<string>)
  {
    v in visited && Distinct(l)
    && (forall x :: x in visited ==> x in g.adj && (x == v || Reachable1(g, v, x)))
    && (forall x :: x in l ==> x in visited && x !in expanded)
    && (forall x :: x in visited ==> x in expanded || x in l)
    && (forall x :: x in expanded ==> x in visited)
    && Expanded(g, expanded, set x | x in visited)
    && (forall a :: a in expanded ==> !Arc(g, a, v))
  }

  /** The state of `node_has_cycle(v)` while it walks the entries of
      `node`, just taken off the queue. */
  ghost predicate CycleMid(g: Graph, v: string, l: seq<string>, visited: seq<string>, expanded: set<string>, node: string)
  {
    v in visited && Distinct(l) && node in g.adj && node in visited && node !in expanded && node !in l
    && (node == v || Reachable1(g, v, node))
    && (forall x :: x in visited ==> x in g.adj && (x == v || Reachable1(g, v, x)))
    && (forall x :: x in l ==> x in visited && x !in expanded)
    && (forall x :: x in visited ==> x in expanded || x in l || x == node)
    && (forall x :: x in expanded ==> x in visited)
    && Expanded(g, expanded, set x | x in visited)
    && (forall a :: a in expanded ==> !Arc(g, a, v))
  }

  lemma CyclePop(g: Graph, v: string, l: seq<string>, visited: seq<string>, expanded: set<string>)
    requires CycleInv(g, v, l, visited, expanded) && |l| > 0
    ensures CycleMid(g, v, l[1..], visited, expanded, l[0])
  {
    DistinctTail(l);
    assert forall x :: x in l <==> x == l[0] || x in l[1..];
    assert l[0] !in l[1..] by {
      forall i | 1 <= i < |l|
        ensures l[i] != l[0]
      {
      }
    }
  }

  /** Whether some entry of `es` names `v`. */
  predicate NamesVertex(es: seq<Entry>, v: string)
  {
    exists j :: 0 <= j < |es| && es[j].name == v
  }

  /** Without an entry naming `d`, `node` has no edge to `d`. */
  lemma NoArcTo(g: Graph, node: string, d: string)
    requires node in g.adj
    ensures !NamesVertex(g.adj[node], d) ==> !Arc(g, node, d)
  {
    if Arc(g, node, d) {
      ArcEntry(g, node, d);
    }
  }

  /** An entry of `node` naming `v` closes a cycle through `v`. */
  lemma CycleFound(g: Graph, v: string, node: string)
    requires WellFormed(g) && Simple(g) && node in g.adj && (node == v || Reachable1(g, v, node))
    requires NamesVertex(g.adj[node], v)
    ensures Reachable1(g, v, v)
  {
    var j :| 0 <= j < |g.adj[node]| && g.adj[node][j].name == v;
    EntryArc(g, node, j);
    ReachStep(g, v, node, v);
  }

  /** When no entry of `node` names `v`, visiting and queueing its new
      successors expands `node`. */
  lemma CycleExpand(g: Graph, v: string, l: seq<string>, visited: seq<string>, expanded: set<string>, node: string)
    requires WellFormed(g) && Simple(g) && CycleMid(g, v, l, visited, expanded, node)
    requires !NamesVertex(g.adj[node], v)
    ensures var f := Fresh(visited, [], node, g.adj[node], false);
      CycleInv(g, v, l + f, visited + f, expanded + {node})
  {
    var f := Fresh(visited, [], node, g.adj[node], false);
    FreshFacts(visited, [], node, g.adj[node], false);
    FreshArcs(g, v, [], visited, node, false);
    forall b | Arc(g, node, b)
      ensures b != v
    {
      ArcEntry(g, node, b);
    }
    CycleVisit(g, v, l, visited, expanded, node, f);
    CycleClosed(g, v, visited, expanded, node, f);
  }

  /** Visiting and queueing new successors of `node` keeps the visited
      and queued vertices sound. */
  lemma CycleVisit(g: Graph, v: string, l: seq<string>, visited: seq<string>, expanded: set<string>,
                   node: string, f: seq<string>)
    requires CycleMid(g, v, l, visited, expanded, node)
    requires Distinct(f) && forall x :: x in f ==> x !in visited && Arc(g, node, x) && x in g.adj
    ensures var l', visited' := l + f, visited + f;
      Distinct(l')
      && (forall x :: x in visited' ==> x in g.adj && (x == v || Reachable1(g, v, x)))
      && (forall x :: x in l' ==> x in visited' && x !in expanded + {node})
      && (forall x :: x in visited' ==> x in expanded + {node} || x in l')
      && (forall x :: x in expanded + {node} ==> x in visited')
  {
    DistinctConcat(l, f);
    forall x | x in f
      ensures Reachable1(g, v, x)
    {
      ReachStep(g, v, node, x);
    }
  }

  /** `node` joins the expanded vertices once its successors are visited
      and none of them is `v`. */
  lemma CycleClosed(g: Graph, v: string, visited: seq<string>, expanded: set<string>, node: string, f: seq<string>)
    requires Expanded(g, expanded, set x | x in visited) && (forall a :: a in expanded ==> !Arc(g, a, v))
    requires forall b :: Arc(g, node, b) ==> (b in visited || b in f) && b != v
    ensures Expanded(g, expanded + {node}, set x | x in visited + f)
    ensures forall a :: a in expanded + {node} ==> !Arc(g, a, v)
  {
    assert (set x | x in visited + f) == (set x | x in visited) + (set x | x in f);
  }

  /** Each round visits a new vertex or shortens the queue. */
  lemma VisitShrinks(keys: set<string>, visited: seq<string>, f: seq<string>)
    requires forall x :: x in f ==> x in keys && x !in visited
    ensures f == [] || keys - (set x | x in visited + f) < keys - (set x | x in visited)
  {
    if f != [] {
      assert f[0] in keys - (set x | x in visited);
      assert f[0] !in keys - (set x | x in visited + f);
    }
  }

  /** With the queue empty, the visited vertices are closed under edges
      and none has an edge back to `v`: there is no cycle through `v`. */
  lemma CycleDone(g: Graph, v: string, visited: seq<string>, expanded: set<string>)
    requires CycleInv(g, v, [], visited, expanded)
    ensures !Reachable1(g, v, v)
  {
    assert expanded == set x | x in visited;
    if Reachable1(g, v, v) {
      var n: nat :| 1 <= n && WalkOfLen(g, v, v, n);
      ClosedAvoids(g, expanded, v, v, n);
    }
  }
}
