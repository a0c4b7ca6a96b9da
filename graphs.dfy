/** The `MyGraph` class and its searches. */
module Graphs {
  import opened Optional
  import opened GraphModel
  import opened SeqFacts
  import opened GraphSearch
  import opened GraphDistance
  import opened GraphBfs
  import opened GraphPaths
  import opened GraphReach

  /** The `MyGraph` object built by `MyGraph()`: `nodes` and `adj` are
      the keys and contents of its `graph` dictionary. Its `id` stays None,
      so successors and predecessors read the heads of the entries. */
  class MyGraph {
    var nodes: seq<string>
    var adj: map<string, seq<Entry>>

    function State(): Graph
      reads this
    {
      Graph(nodes, adj)
    }

    ghost predicate Valid()
      reads this
    {
      WellFormed(State())
    }

    constructor ()
      ensures Valid() && State() == EmptyGraph
    {
      nodes := [];
      adj := map[];
    }

    method AddVertexTo(v: string)
      requires Valid()
      modifies this
      ensures Valid() && State() == AddVertex(old(State()), v)
    {
      if v !in adj {
        nodes := nodes + [v];
        adj := adj[v := []];
      }
    }

    method AddEdgeTo(o: string, d: string, p: string)
      requires Valid()
      modifies this
      ensures Valid() && State() == AddEdge(old(State()), o, d, p)
    {
      AddEdgeWellFormed(State(), o, d, p);
      if o !in adj {
        AddVertexTo(o);
      }
      if d !in adj {
        AddVertexTo(d);
      }
      if Vertex(d) !in adj[o] && p == "bin" {
        adj := adj[o := adj[o] + [Vertex(d)]];
      } else {
        adj := adj[o := adj[o] + [Labelled(d, p)]];
      }
    }

    /** `get_nodes()`. */
    method GetNodes() returns (r: seq<string>)
      requires Valid()
      ensures r == nodes && forall v :: v in r <==> v in adj
    {
      r := nodes;
    }

    /** `get_edges()`. */
    method GetEdges() returns (edges: seq<Edge>)
      requires Valid()
      ensures edges == Edges(State())
    {
      var g := State();
      edges := [];
      for k := 0 to |g.nodes|
        invariant edges == EdgesUpTo(g, k)
      {
        var v := g.nodes[k];
        edges := AppendEdgesOf(edges, v, g.adj[v]);
      }
    }

    /** `size()`: the number of vertices and of adjacency entries. */
    method Size() returns (vertices: nat, edges: nat)
      requires Valid()
      ensures vertices == |nodes| && edges == EntryCount(State(), |nodes|)
    {
      var es := GetEdges();
      EdgesCount(State(), |nodes|);
      vertices, edges := |nodes|, |es|;
    }

    /** `get_successors(v)` with `id` None. */
    method GetSuccessors(v: string) returns (res: seq<string>)
      requires Valid() && v in adj && HeadsDefined(adj[v])
      ensures res == Successors(State(), v)
    {
      var es := adj[v];
      res := [];
      for i := 0 to |es|
        invariant |res| == i && forall j :: 0 <= j < i ==> res[j] == Head(es[j])
      {
        match es[i]
        case Vertex(n) =>
          res := res + [n[..1]];
        case Labelled(d, _) =>
          res := res + [d];
      }
    }

    /** `get_predecessors(v)` with `id` None. */
    method GetPredecessors(v: string) returns (res: seq<string>)
      requires Valid() && AllHeads(State())
      ensures res == Predecessors(State(), v)
    {
      var g := State();
      res := [];
      for k := 0 to |g.nodes|
        invariant res == PredsUpTo(g, v, k)
      {
        var u := g.nodes[k];
        res := AppendPredsIn(res, u, g.adj[u], v);
      }
    }

    /** `get_adjacents(v)`. */
    method GetAdjacents(v: string) returns (res: seq<string>)
      requires Valid() && v in adj && AllHeads(State())
      ensures res == Adjacents(State(), v)
    {
      var suc := GetSuccessors(v);
      var pred := GetPredecessors(v);
      res := pred;
      for i := 0 to |suc|
        invariant AddMissing(res, suc[i..]) == AddMissing(pred, suc)
      {
        assert suc[i..][1..] == suc[i + 1..];
        if suc[i] !in res {
          res := res + [suc[i]];
        }
      }
    }

    method OutDegree(v: string) returns (n: nat)
      requires Valid() && v in adj
      ensures n == |adj[v]|
    {
      n := |adj[v]|;
    }

    method InDegree(v: string) returns (n: nat)
      requires Valid() && AllHeads(State())
      ensures n == |Predecessors(State(), v)|
    {
      var p := GetPredecessors(v);
      n := |p|;
    }

    method Degree(v: string) returns (n: nat)
      requires Valid() && v in adj && AllHeads(State())
      ensures n == |Adjacents(State(), v)|
    {
      var a := GetAdjacents(v);
      n := |a|;
    }

    /** `reachable_bfs(v)`: the vertices reachable from `v` by at least
        one edge, other than `v`, each once, in the order a first-in
        first-out queue discovers them, and so by distance from `v`. */
    method ReachableBfs(v: string) returns (res: seq<string>)
      requires Valid() && Simple(State()) && v in adj
      ensures res == SearchOrder(State(), v, [], [v], false, false)
      ensures Distinct(res) && forall x :: x in res <==> x != v && Reachable1(State(), v, x)
      ensures ByDistance(State(), v, res)
    {
      var g := State();
      var l := [v];
      res := [];
      ghost var started := false;
      while |l| > 0
        invariant SearchInv(g, v, res, l, started)
        invariant SearchOrder(g, v, res, l, started, false) == SearchOrder(g, v, [], [v], false, false)
        decreases if started then 0 else 1, g.adj.Keys - (set x | x in res), |l|
      {
        SearchRound(g, v, res, l, started, false);
        var node := l[0];
        l := l[1..];
        if node != v {
          res := res + [node];
        }
        l := QueueBack(l, res, node, g.adj[node]);
        started := true;
      }
      SearchDone(g, v, res);
      BfsByDistance(g, v);
    }

    /** `reachable_dfs(v)`: the vertices reachable from `v` by at least
        one edge, other than `v`, each once, in the order the search
        discovers them when it puts the new successors of each vertex in
        front of the queue. A loop at `v` would make the source queue `v`
        forever, so it is excluded. */
    method ReachableDfs(v: string) returns (res: seq<string>)
      requires Valid() && Simple(State()) && v in adj && !Arc(State(), v, v)
      ensures res == SearchOrder(State(), v, [], [v], false, true)
      ensures Distinct(res) && forall x :: x in res <==> x != v && Reachable1(State(), v, x)
    {
      var g := State();
      var l := [v];
      res := [];
      ghost var started := false;
      while |l| > 0
        invariant SearchInv(g, v, res, l, started)
        invariant SearchOrder(g, v, res, l, started, true) == SearchOrder(g, v, [], [v], false, true)
        decreases if started then 0 else 1, g.adj.Keys - (set x | x in res), |l|
      {
        SearchRound(g, v, res, l, started, true);
        var node := l[0];
        l := l[1..];
        if node != v {
          res := res + [node];
        }
        l := QueueFront(l, res, node, g.adj[node]);
        started := true;
      }
      SearchDone(g, v, res);
    }


    /** `node_has_cycle(v)`: whether some walk of at least one edge leads
        from `v` back to `v`. */
    method NodeHasCycle(v: string) returns (res: bool)
      requires Valid() && Simple(State()) && v in adj
      ensures res <==> Reachable1(State(), v, v)
    {
      var g := State();
      var l := [v];
      var visited := [v];
      ghost var expanded: set<string> := {};
      while |l| > 0
        invariant CycleInv(g, v, l, visited, expanded)
        decreases g.adj.Keys - (set x | x in visited), |l|
      {
        CyclePop(g, v, l, visited, expanded);
        var node := l[0];
        l := l[1..];
        var found, l', visited' := ExpandOnce(l, visited, v, node, g.adj[node]);
        if found {
          CycleFound(g, v, node);
          return true;
        }
        CycleExpand(g, v, l, visited, expanded, node);
        FreshArcs(g, v, [], visited, node, false);
        FreshFacts(visited, [], node, g.adj[node], false);
        VisitShrinks(g.adj.Keys, visited, Fresh(visited, [], node, g.adj[node], false));
        l, visited := l', visited';
        expanded := expanded + {node};
      }
      CycleDone(g, v, visited, expanded);
      return false;
    }

    /** `has_cycle()`: whether some vertex lies on a cycle. */
    method HasCycle() returns (res: bool)
      requires Valid() && Simple(State())
      ensures res <==> exists v :: v in adj && Reachable1(State(), v, v)
    {
      for i := 0 to |nodes|
        invariant forall j :: 0 <= j < i ==> !Reachable1(State(), nodes[j], nodes[j])
      {
        var c := NodeHasCycle(nodes[i]);
        if c {
          return true;
        }
      }
      return false;
    }


    /** `distance(s, d)`: the number of edges of a shortest walk from `s`
        to `d`, 0 when they are equal, None when `d` cannot be reached. */
    method Distance(s: string, d: string) returns (r: Option<nat>)
      requires Valid() && Simple(State()) && (s == d || s in adj)
      ensures r.Some? <==> exists n: nat :: WalkOfLen(State(), s, d, n)
      ensures r.Some? ==> MinWalk(State(), s, d, r.value)
    {
      var g := State();
      WalkNil(g, s, d);
      if s == d {
        return Some(0);
      }
      var l: seq<(string, nat)> := [(s, 0)];
      var visited := [s];
      ghost var expanded: set<string> := {};
      LayerStart(g, s);
      while |l| > 0
        invariant LayerInv(g, s, l, visited, expanded) && Avoids(g, d, visited, expanded)
        decreases g.adj.Keys - (set x | x in visited), |l|
      {
        LayerPop(g, s, l, visited, expanded);
        var node, dist := l[0].0, l[0].1;
        l := l[1..];
        var found, l', visited' := VisitNew<nat>(l, visited, d, node, g.adj[node], dist + 1);
        if found {
          LayerFound(g, s, d, l, visited, expanded, node, dist);
          assert WalkOfLen(State(), s, d, dist + 1);
          return Some(dist + 1);
        }
        DistanceStep(g, s, d, l, visited, expanded, node, dist);
        ghost var f := Fresh(visited, [], node, g.adj[node], false);
        assert |l'| == |l| + |f|;
        l, visited := l', visited';
        expanded := expanded + {node};
      }
      LayerDone(g, s, d, visited, expanded);
      return None;
    }


    /** `shortest_path(s, d)`: the vertices of a shortest walk from `s`
        to `d`, both included; the empty list when `s` is `d`; None when
        `d` cannot be reached. */
    method ShortestPath(s: string, d: string) returns (r: Option<seq<string>>)
      requires Valid() && Simple(State()) && (s == d || s in adj)
      ensures s == d ==> r == Some([])
      ensures r.Some? <==> exists n: nat :: WalkOfLen(State(), s, d, n)
      ensures s != d && r.Some? ==> PathTo(State(), s, r.value, d) && MinWalk(State(), s, d, |r.value| - 1)
    {
      var g := State();
      WalkNil(g, s, d);
      if s == d {
        return Some([]);
      }
      var l: seq<(string, seq<string>)> := [(s, [])];
      var visited := [s];
      ghost var expanded: set<string> := {};
      PathStart(g, s);
      while |l| > 0
        invariant PathInv(g, s, l, visited, expanded) && Avoids(g, d, visited, expanded)
        decreases g.adj.Keys - (set x | x in visited), |l|
      {
        PathPop(g, s, l, visited, expanded);
        var node, preds := l[0].0, l[0].1;
        l := l[1..];
        var found, l', visited' := VisitNew<seq<string>>(l, visited, d, node, g.adj[node], preds + [node]);
        if found {
          LayerFound(g, s, d, Dists(l), visited, expanded, node, |preds|);
          PathFound(g, s, d, preds, node);
          assert WalkOfLen(State(), s, d, |preds| + 1);
          return Some(preds + [node, d]);
        }
        PathStep(g, s, d, l, visited, expanded, node, preds);
        ghost var f := Fresh(visited, [], node, g.adj[node], false);
        assert |l'| == |l| + |f|;
        l, visited := l', visited';
        expanded := expanded + {node};
      }
      PathDone(g, s, d, visited, expanded);
      return None;
    }

    /** `reachable_with_dist(s)`: the vertices reachable from `s` by at
        least one edge, other than `s`, each once, each with the length
        of the shortest walk from `s`. A loop at `s` would make the source queue `s`
        forever, so it is excluded. */
    method ReachableWithDist(s: string) returns (res: seq<(string, nat)>)
      requires Valid() && Simple(State()) && s in adj && !Arc(State(), s, s)
      ensures Distinct(Firsts(res)) && forall x :: x in Firsts(res) <==> x != s && Reachable1(State(), s, x)
      ensures forall i :: 0 <= i < |res| ==> MinWalk(State(), s, res[i].0, res[i].1)
    {
      var g := State();
      var l: seq<(string, nat)> := [(s, 0)];
      res := [];
      ghost var started := false;
      WalkNil(g, s, s);
      assert Firsts(l) == [s];
      while |l| > 0
        invariant ReachInv(g, s, res, l, started) && ReachLayers(g, s, res, l, started)
        decreases if started then 0 else 1, g.adj.Keys - (set x | x in Firsts(res)), |l|
      {
        ReachRound(g, s, res, l, started);
        var node, dist := l[0].0, l[0].1;
        if node != s {
          res := res + [l[0]];
        }
        l := l[1..];
        l := QueueDist(l, res, node, g.adj[node], dist + 1);
        started := true;
      }
      ReachDistDone(g, s, res, l);
    }
  }

  /** The inner loop of `get_edges`: one edge per entry of `v`. */
  method AppendEdgesOf(edges: seq<Edge>, v: string, es: seq<Entry>) returns (edges': seq<Edge>)
    ensures edges' == edges + EdgesOf(v, es)
  {
    edges' := edges;
    for j := 0 to |es|
      invariant edges' == edges + EdgesOf(v, es[..j])
    {
      assert es[..j + 1][..j] == es[..j];
      AppendAssoc(edges, EdgesOf(v, es[..j]), EdgesOf(v, es[..j + 1])[j..]);
      match es[j]
      case Labelled(d, p) =>
        edges' := edges' + [Triple(v, d, p)];
      case Vertex(d) =>
        edges' := edges' + [Pair(v, d)];
    }
    assert es[..|es|] == es;
  }

  /** The inner loop of `get_predecessors`: `u` once per entry of `u`
      whose head is `v`. */
  method AppendPredsIn(res: seq<string>, u: string, es: seq<Entry>, v: string) returns (res': seq<string>)
    requires HeadsDefined(es)
    ensures res' == res + PredsIn(u, es, v)
  {
    res' := res;
    for j := 0 to |es|
      invariant res' == res + PredsIn(u, es[..j], v)
    {
      assert es[..j + 1][..j] == es[..j];
      AppendAssoc(res, PredsIn(u, es[..j], v), [u]);
      if v == Head(es[j]) {
        res' := res' + [u];
      }
    }
    assert es[..|es|] == es;
  }

  /** The inner loop of `reachable_bfs`: each entry of `node` not yet
      reported or queued, and other than `node`, is queued at the back. */
  method QueueBack(l: seq<string>, res: seq<string>, node: string, es: seq<Entry>) returns (l': seq<string>)
    ensures l' == l + Fresh(l, res, node, es, true)
  {
    l' := l;
    for i := 0 to |es|
      invariant l' == l + Fresh(l, res, node, es[..i], true)
    {
      assert es[..i + 1][..i] == es[..i];
      var elem := es[i].name;
      if elem !in res && elem !in l' && elem != node {
        AppendAssoc(l, Fresh(l, res, node, es[..i], true), [elem]);
        l' := l' + [elem];
      }
    }
    assert es[..|es|] == es;
  }

  /** The inner loop of `reachable_dfs`: each entry of `node` not yet
      reported or queued is inserted at the front, after those inserted
      before it in this round. */
  method QueueFront(l: seq<string>, res: seq<string>, node: string, es: seq<Entry>) returns (l': seq<string>)
    ensures l' == Fresh(l, res, node, es, false) + l
  {
    l' := l;
    var s := 0;
    for i := 0 to |es|
      invariant s == |Fresh(l, res, node, es[..i], false)| && l' == Fresh(l, res, node, es[..i], false) + l
    {
      assert es[..i + 1][..i] == es[..i];
      var elem := es[i].name;
      if elem !in res && elem !in l' {
        assert l'[..s] == Fresh(l, res, node, es[..i], false) && l'[s..] == l;
        l' := l'[..s] + [elem] + l'[s..];
        s := s + 1;
      }
    }
    assert es[..|es|] == es;
  }

  /** The inner loop of `node_has_cycle`: stop as soon as an entry of
      `node` names `v`; otherwise visit and queue each entry not visited
      yet. */
  method ExpandOnce(l: seq<string>, visited: seq<string>, v: string, node: string, es: seq<Entry>)
    returns (found: bool, l': seq<string>, visited': seq<string>)
    ensures found <==> NamesVertex(es, v)
    ensures !found ==> l' == l + Fresh(visited, [], node, es, false) && visited' == visited + Fresh(visited, [], node, es, false)
  {
    l', visited' := l, visited;
    for i := 0 to |es|
      invariant l' == l + Fresh(visited, [], node, es[..i], false)
      invariant visited' == visited + Fresh(visited, [], node, es[..i], false)
      invariant forall j :: 0 <= j < i ==> es[j].name != v
    {
      assert es[..i + 1][..i] == es[..i];
      var elem := es[i].name;
      if elem == v {
        return true, l', visited';
      } else if elem !in visited' {
        AppendAssoc(l, Fresh(visited, [], node, es[..i], false), [elem]);
        AppendAssoc(visited, Fresh(visited, [], node, es[..i], false), [elem]);
        l', visited' := l' + [elem], visited' + [elem];
      }
    }
    assert es[..|es|] == es;
    return false, l', visited';
  }

  /** The inner loop of `distance` and `shortest_path`: stop as soon as
      an entry of `node` names `d`; otherwise visit each entry not visited
      yet and queue it with `tag`. */
  method VisitNew<L>(l: seq<(string, L)>, visited: seq<string>, d: string, node: string, es: seq<Entry>, tag: L)
    returns (found: bool, l': seq<(string, L)>, visited': seq<string>)
    ensures found <==> NamesVertex(es, d)
    ensures !found ==> l' == l + Tagged(Fresh(visited, [], node, es, false), tag)
                       && visited' == visited + Fresh(visited, [], node, es, false)
  {
    l', visited' := l, visited;
    for i := 0 to |es|
      invariant l' == l + Tagged(Fresh(visited, [], node, es[..i], false), tag)
      invariant visited' == visited + Fresh(visited, [], node, es[..i], false)
      invariant forall j :: 0 <= j < i ==> es[j].name != d
    {
      assert es[..i + 1][..i] == es[..i];
      var elem := es[i].name;
      if elem == d {
        return true, l', visited';
      } else if elem !in visited' {
        ghost var pre := Fresh(visited, [], node, es[..i], false);
        TaggedAppend(pre, elem, tag);
        AppendAssoc(l, Tagged(pre, tag), [(elem, tag)]);
        AppendAssoc(visited, pre, [elem]);
        l', visited' := l' + [(elem, tag)], visited' + [elem];
      }
    }
    assert es[..|es|] == es;
    return false, l', visited';
  }

  /** The inner loop of `reachable_with_dist`: each entry of `node`
      named neither in the queue nor in the result is queued with
      distance `n`. */
  method QueueDist(l: seq<(string, nat)>, res: seq<(string, nat)>, node: string, es: seq<Entry>, n: nat)
    returns (l': seq<(string, nat)>)
    ensures l' == l + Tagged<nat>(Fresh(Firsts(l), Firsts(res), node, es, false), n)
  {
    l' := l;
    for i := 0 to |es|
      invariant l' == l + Tagged<nat>(Fresh(Firsts(l), Firsts(res), node, es[..i], false), n)
    {
      assert es[..i + 1][..i] == es[..i];
      ghost var pre := Fresh(Firsts(l), Firsts(res), node, es[..i], false);
      var elem := es[i].name;
      var inQueue := IsInTupleList(l', elem);
      var inRes := IsInTupleList(res, elem);
      InTupleListFirsts(l', elem);
      InTupleListFirsts(res, elem);
      FirstsTagged<nat>(l, pre, n);
      if !inQueue && !inRes {
        TaggedAppend(pre, elem, n);
        AppendAssoc(l, Tagged<nat>(pre, n), [(elem, n)]);
        l' := l' + [(elem, n)];
      }
    }
    assert es[..|es|] == es;
  }

  /** `is_in_tuple_list(tl, val)`. */
  method IsInTupleList<T(==), U>(tl: seq<(T, U)>, val: T) returns (res: bool)
    ensures res == InTupleList(tl, val)
  {
    for i := 0 to |tl|
      invariant forall j :: 0 <= j < i ==> tl[j].0 != val
    {
      if val == tl[i].0 {
        return true;
      }
    }
    return false;
  }
}
