/** `reachable_bfs` reports the vertices in order of their distance from
    the start: its queue, read without the start vertex (which a later
    round may queue again), is the layered queue of `distance`. */
module GraphBfs {
  import opened GraphModel
  import opened GraphSearch
  import opened GraphDistance

  /** The distances from `v` of the vertices of `r` never decrease along
      `r`. */
  ghost predicate ByDistance(g: Graph, v: string, r: seq<string>)
  {
    forall i, j, m: nat, n: nat :: 0 <= i < j < |r| && MinWalk(g, v, r[i], m) && MinWalk(g, v, r[j], n) ==> m <= n
  }

  /** `s` without the occurrences of `v`. */
  function Without(s: seq<string>, v: string): (r: seq<string>)
    ensures forall x :: x in r <==> x in s && x != v
  {
    if s == [] then [] else (if s[0] == v then [] else [s[0]]) + Without(s[1..], v)
  }

  lemma {:induction false} WithoutAppend(a: seq<string>, b: seq<string>, v: string)
    ensures Without(a + b, v) == Without(a, v) + Without(b, v)
    decreases |a|
  {
    if a != [] {
      var h := if a[0] == v then [] else [a[0]];
      assert (a + b)[0] == a[0] && (a + b)[1..] == a[1..] + b;
      assert Without(a + b, v) == h + Without(a[1..] + b, v);
      WithoutAppend(a[1..], b, v);
      assert h + (Without(a[1..], v) + Without(b, v)) == (h + Without(a[1..], v)) + Without(b, v);
    } else {
      assert a + b == b;
    }
  }

  /** The breadth-first search queues its new successors with `skipNode`
      set and may queue `v` again; without `v` they are the vertices
      `distance` would queue, given the same vertices seen. */
  lemma {:induction false} FreshWithout(known: seq<string>, res: seq<string>, node: string, es: seq<Entry>,
                                        v: string, visited: seq<string>)
    requires forall x :: x in visited <==> x in res || x in known || x == node || x == v
    ensures Without(Fresh(known, res, node, es, true), v) == Fresh(visited, [], node, es, false)
    decreases |es|
  {
    if es != [] {
      var es' := es[..|es| - 1];
      FreshWithout(known, res, node, es', v, visited);
      var pre := Fresh(known, res, node, es', true);
      var e := es[|es| - 1].name;
      if e !in res && e !in known && e !in pre && e != node {
        WithoutAppend(pre, [e], v);
      }
    }
  }

  /** `tq` names the vertices of the queue `l`, without `v` once the
      search has started. */
  ghost predicate QueueView(tq: seq<(string, nat)>, l: seq<string>, v: string, started: bool)
  {
    Firsts(tq) == (if started then Without(l, v) else l)
  }

  /** `rt` holds the distances of the reported vertices, in order, and
      none exceeds the distance at the head of the queue `tq`. */
  ghost predicate Reported(g: Graph, v: string, res: seq<string>, rt: seq<nat>, tq: seq<(string, nat)>)
  {
    |rt| == |res| && (forall i :: 0 <= i < |res| ==> MinWalk(g, v, res[i], rt[i]))
    && (forall i, j :: 0 <= i < j < |rt| ==> rt[i] <= rt[j])
    && (|rt| > 0 && |tq| > 0 ==> rt[|rt| - 1] <= tq[0].1)
  }

  /** What the breadth-first search keeps beside `SearchInv`: `tq`, the
      queue without `v` tagged with distances, satisfies the layered
      invariant of `distance` for the vertices seen (`visited`) and those
      expanded, and the reported vertices are in order of distance. */
  ghost predicate BfsInv(g: Graph, v: string, res: seq<string>, l: seq<string>, started: bool,
                         tq: seq<(string, nat)>, visited: seq<string>, expanded: set<string>, rt: seq<nat>)
  {
    QueueView(tq, l, v, started)
    && expanded == (if started then (set x | x in res) + {v} else {})
    && (forall x :: x in visited <==> x in Seen(v, res, l))
    && LayerInv(g, v, tq, visited, expanded)
    && Reported(g, v, res, rt, tq)
  }

  lemma BfsStart(g: Graph, v: string)
    requires v in g.adj
    ensures BfsInv(g, v, [], [v], false, [(v, 0)], [v], {}, [])
  {
    LayerStart(g, v);
  }

  /** The reported vertices are in order of distance. */
  lemma BfsReported(g: Graph, v: string, res: seq<string>, rt: seq<nat>)
    requires Reported(g, v, res, rt, [])
    ensures ByDistance(g, v, res)
  {
    forall i, j, m: nat, n: nat | 0 <= i < j < |res| && MinWalk(g, v, res[i], m) && MinWalk(g, v, res[j], n)
      ensures m <= n
    {
      assert m == rt[i] && n == rt[j];
    }
  }

  /** A round that pops `v` again queues nothing and changes nothing the
      invariant names. */
  lemma BfsRepeat(g: Graph, v: string, res: seq<string>, l: seq<string>, l': seq<string>,
                  tq: seq<(string, nat)>, visited: seq<string>, expanded: set<string>, rt: seq<nat>)
    requires |l| > 0 && l[0] == v && l' == l[1..]
    requires BfsInv(g, v, res, l, true, tq, visited, expanded, rt)
    ensures BfsInv(g, v, res, l', true, tq, visited, expanded, rt)
  {
    assert l == [v] + l';
    WithoutAppend([v], l', v);
    assert QueueView(tq, l', v, true);
    assert forall x :: x in l <==> x == v || x in l';
    assert forall x :: x in visited <==> x in Seen(v, res, l');
  }

  /** Popping a vertex other than `v`, or `v` in the first round, pops the
      head of the tagged queue too. */
  lemma BfsPop(g: Graph, v: string, l: seq<string>, started: bool,
               tq: seq<(string, nat)>, visited: seq<string>, expanded: set<string>)
    requires |l| > 0 && (!started || l[0] != v) && (!started ==> l == [v])
    requires QueueView(tq, l, v, started) && LayerInv(g, v, tq, visited, expanded)
    ensures |tq| > 0 && tq[0].0 == l[0] && Firsts(tq[1..]) == Without(l[1..], v)
    ensures LayerMid(g, v, tq[1..], visited, expanded, l[0], tq[0].1)
  {
    assert |tq| == |Firsts(tq)| > 0 by {
      if started {
        assert l == [l[0]] + l[1..];
        WithoutAppend([l[0]], l[1..], v);
      }
    }
    assert Firsts(tq[1..]) == Firsts(tq)[1..];
    LayerPop(g, v, tq, visited, expanded);
  }

  /** The tagged queue after the round names the new queue. */
  lemma BfsQueueNext(tq1: seq<(string, nat)>, l1: seq<string>, f: seq<string>, F: seq<string>, v: string, n: nat)
    requires Firsts(tq1) == Without(l1, v) && Without(f, v) == F
    ensures QueueView(tq1 + Tagged<nat>(F, n + 1), l1 + f, v, true)
  {
    FirstsTagged<nat>(tq1, F, n + 1);
    WithoutAppend(l1, f, v);
  }

  /** Reporting `node` at its distance `n`, the head's, keeps the reported
      distances in order and within the new head's. */
  lemma BfsReportNext(g: Graph, v: string, res: seq<string>, rt: seq<nat>, tq: seq<(string, nat)>,
                      node: string, n: nat, tq': seq<(string, nat)>)
    requires Reported(g, v, res, rt, tq) && |tq| > 0 && tq[0].1 == n && MinWalk(g, v, node, n)
    requires forall i :: 0 <= i < |tq'| ==> n <= tq'[i].1
    ensures Reported(g, v, res + [node], rt + [n], tq')
  {
  }

  /** A round that pops `v` for the first time, or pops another vertex,
      expands it as `distance` would: its new successors other than `v`
      join the tagged queue one layer further, and the popped vertex, when
      it is not `v`, is reported at the distance of the head. */
  lemma BfsExpand(g: Graph, v: string, res: seq<string>, l: seq<string>, started: bool,
                  tq: seq<(string, nat)>, visited: seq<string>, expanded: set<string>, rt: seq<nat>)
    returns (tq': seq<(string, nat)>, visited': seq<string>, expanded': set<string>, rt': seq<nat>)
    requires WellFormed(g) && Simple(g) && |l| > 0 && (!started || l[0] != v) && (!started ==> l == [v] && res == [])
    requires BfsInv(g, v, res, l, started, tq, visited, expanded, rt)
    ensures var node := l[0];
      var res' := if node != v then res + [node] else res;
      BfsInv(g, v, res', l[1..] + Fresh(l[1..], res', node, g.adj[node], true), true, tq', visited', expanded', rt')
  {
    var node := l[0];
    var res' := if node != v then res + [node] else res;
    var f := Fresh(l[1..], res', node, g.adj[node], true);
    var n, F;
    tq', visited', expanded', n, F := BfsExpandLayer(g, v, res, l, started, tq, visited, expanded);
    if node != v {
      rt' := rt + [n];
      BfsReportNext(g, v, res, rt, tq, node, n, tq');
    } else {
      rt' := rt;
    }
    BfsSeenNext(v, res, l, res', f, visited, F);
    BfsExpandedNext(v, res, node, started, expanded);
  }

  /** The layered part of an expanding round. */
  lemma BfsExpandLayer(g: Graph, v: string, res: seq<string>, l: seq<string>, started: bool,
                       tq: seq<(string, nat)>, visited: seq<string>, expanded: set<string>)
    returns (tq': seq<(string, nat)>, visited': seq<string>, expanded': set<string>, n: nat, F: seq<string>)
    requires WellFormed(g) && Simple(g) && |l| > 0 && (!started || l[0] != v) && (!started ==> l == [v] && res == [])
    requires QueueView(tq, l, v, started) && LayerInv(g, v, tq, visited, expanded)
    requires forall x :: x in visited <==> x in Seen(v, res, l)
    ensures var node := l[0];
      var res' := if node != v then res + [node] else res;
      var f := Fresh(l[1..], res', node, g.adj[node], true);
      QueueView(tq', l[1..] + f, v, true) && LayerInv(g, v, tq', visited', expanded')
      && |tq| > 0 && tq[0] == (node, n) && MinWalk(g, v, node, n) && (forall i :: 0 <= i < |tq'| ==> n <= tq'[i].1)
      && visited' == visited + F && expanded' == expanded + {node} && (forall x :: x in F <==> x in f && x != v)
  {
    var node := l[0];
    var res' := if node != v then res + [node] else res;
    var f := Fresh(l[1..], res', node, g.adj[node], true);
    BfsPop(g, v, l, started, tq, visited, expanded);
    n := tq[0].1;
    SeenSplit(v, res, l, res', visited);
    FreshWithout(l[1..], res', node, g.adj[node], v, visited);
    F := Fresh(visited, [], node, g.adj[node], false);
    tq', visited', expanded' := tq[1..] + Tagged<nat>(F, n + 1), visited + F, expanded + {node};
    BfsQueueNext(tq[1..], l[1..], f, F, v, n);
    BfsLayerNext(g, v, tq[1..], visited, expanded, node, n);
  }

  /** Expanding the head keeps the layered invariant, and the new queue
      lies at or beyond the head's distance. */
  lemma BfsLayerNext(g: Graph, v: string, tq1: seq<(string, nat)>, visited: seq<string>, expanded: set<string>,
                     node: string, n: nat)
    requires WellFormed(g) && Simple(g) && LayerMid(g, v, tq1, visited, expanded, node, n)
    ensures var F := Fresh(visited, [], node, g.adj[node], false);
      var tq' := tq1 + Tagged<nat>(F, n + 1);
      LayerInv(g, v, tq', visited + F, expanded + {node}) && forall i :: 0 <= i < |tq'| ==> n <= tq'[i].1
  {
    LayerExpand(g, v, tq1, visited, expanded, node, n);
  }

  lemma SeenSplit(v: string, res: seq<string>, l: seq<string>, res': seq<string>, visited: seq<string>)
    requires |l| > 0 && res' == (if l[0] != v then res + [l[0]] else res)
    requires forall x :: x in visited <==> x in Seen(v, res, l)
    ensures forall x :: x in visited <==> x in res' || x in l[1..] || x == l[0] || x == v
  {
    assert forall x :: x in l <==> x == l[0] || x in l[1..];
  }

  /** The expanded vertices after the round are `v` and those reported. */
  lemma BfsExpandedNext(v: string, res: seq<string>, node: string, started: bool, expanded: set<string>)
    requires expanded == (if started then (set x | x in res) + {v} else {}) && (!started ==> node == v && res == [])
    ensures var res' := if node != v then res + [node] else res;
      expanded + {node} == (set x | x in res') + {v}
  {
    var res' := if node != v then res + [node] else res;
    assert forall x :: x in res' <==> x in res || (node != v && x == node);
  }

  /** The vertices seen after the round are those seen before and the new
      successors. */
  lemma BfsSeenNext(v: string, res: seq<string>, l: seq<string>, res': seq<string>, f: seq<string>,
                    visited: seq<string>, F: seq<string>)
    requires |l| > 0 && res' == (if l[0] != v then res + [l[0]] else res)
    requires (forall x :: x in visited <==> x in Seen(v, res, l)) && forall x :: x in F <==> x in f && x != v
    ensures forall x :: x in visited + F <==> x in Seen(v, res', l[1..] + f)
  {
    assert forall x :: x in l <==> x == l[0] || x in l[1..];
  }

  /** From any state of the breadth-first search that keeps `BfsInv`,
      the vertices it reports are in order of distance. */
  lemma {:induction false} BfsLayers(g: Graph, v: string, res: seq<string>, l: seq<string>, started: bool,
                                     tq: seq<(string, nat)>, visited: seq<string>, expanded: set<string>, rt: seq<nat>)
    requires WellFormed(g) && Simple(g) && SearchInv(g, v, res, l, started)
    requires BfsInv(g, v, res, l, started, tq, visited, expanded, rt)
    ensures ByDistance(g, v, SearchOrder(g, v, res, l, started, false))
    decreases if started then 0 else 1, g.adj.Keys - (set x | x in res), |l|
  {
    if |l| == 0 {
      BfsReported(g, v, res, rt);
    } else {
      var node := l[0];
      var res' := if node != v then res + [node] else res;
      var l' := NextQueue(l[1..], res', node, g.adj[node], false);
      SearchRound(g, v, res, l, started, false);
      OrderStep(g, v, res, l, started, false, res', l');
      if started && node == v {
        assert l' == l[1..];
        BfsRepeat(g, v, res, l, l', tq, visited, expanded, rt);
        BfsLayers(g, v, res', l', true, tq, visited, expanded, rt);
      } else {
        var tq', visited', expanded', rt' := BfsExpand(g, v, res, l, started, tq, visited, expanded, rt);
        BfsLayers(g, v, res', l', true, tq', visited', expanded', rt');
      }
    }
  }

  /** `reachable_bfs(v)` reports every vertex at distance `n` from `v`
      before any vertex at a greater distance. */
  lemma BfsByDistance(g: Graph, v: string)
    requires WellFormed(g) && Simple(g) && v in g.adj
    ensures SearchInv(g, v, [], [v], false) && ByDistance(g, v, SearchOrder(g, v, [], [v], false, false))
  {
    BfsStart(g, v);
    BfsLayers(g, v, [], [v], false, [(v, 0)], [v], {}, []);
  }
}
