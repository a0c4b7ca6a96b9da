/** The breadth-first search of `shortest_path`: the queue pairs each
    vertex with the vertices of a shortest walk leading to it, so that
    its invariant is the one of `distance` read through the lengths of
    those walks, plus the walks themselves. */
module GraphPaths {
  import opened SeqFacts
  import opened GraphModel
  import opened GraphSearch
  import opened GraphDistance

  /** `p` is a walk of the graph from `s` to `x`, listing both ends. */
  ghost predicate PathTo(g: Graph, s: string, p: seq<string>, x: string)
  {
    |p| > 0 && p[0] == s && p[|p| - 1] == x && IsWalk(g, p)
  }

  /** The queue of `shortest_path` read as the queue of `distance`: each
      vertex with the number of vertices before it on its walk. */
  function Dists(l: seq<(string, seq<string>)>): (r: seq<(string, nat)>)
    ensures |r| == |l| && forall i :: 0 <= i < |l| ==> r[i] == (l[i].0, |l[i].1|)
  {
    seq(|l|, i requires 0 <= i < |l| => (l[i].0, |l[i].1|))
  }

  /** Each queued vertex follows its recorded predecessors on a walk
      from `s`. */
  ghost predicate PathsOk(g: Graph, s: string, l: seq<(string, seq<string>)>)
  {
    forall i :: 0 <= i < |l| ==> PathTo(g, s, l[i].1 + [l[i].0], l[i].0)
  }

  ghost predicate PathInv(g: Graph, s: string, l: seq<(string, seq<string>)>, visited: seq<string>, expanded: set<string>)
  {
    LayerInv(g, s, Dists(l), visited, expanded) && PathsOk(g, s, l)
  }

  lemma DistsTail(l: seq<(string, seq<string>)>)
    requires |l| > 0
    ensures Dists(l[1..]) == Dists(l)[1..]
  {
  }

  lemma DistsTagged(l: seq<(string, seq<string>)>, f: seq<string>, p: seq<string>)
    ensures Dists(l + Tagged<seq<string>>(f, p)) == Dists(l) + Tagged<nat>(f, |p|)
  {
  }

  /** A walk to `x` followed by an edge from `x` is a walk to its end. */
  lemma PathExtend(g: Graph, s: string, p: seq<string>, x: string, y: string)
    requires PathTo(g, s, p, x) && Arc(g, x, y)
    ensures PathTo(g, s, p + [y], y)
  {
    var q := p + [y];
    forall i | 0 <= i < |q| - 1
      ensures Arc(g, q[i], q[i + 1])
    {
      if i < |p| - 1 {
        assert q[i] == p[i] && q[i + 1] == p[i + 1];
      }
    }
  }

  /** A walk from `s` of `|p| - 1` edges. */
  lemma PathWalk(g: Graph, s: string, p: seq<string>, x: string)
    requires PathTo(g, s, p, x)
    ensures WalkOfLen(g, s, x, |p| - 1)
  {
  }

  lemma PathStart(g: Graph, s: string)
    requires s in g.adj
    ensures PathInv(g, s, [(s, [])], [s], {})
  {
    LayerStart(g, s);
    assert Dists([(s, [])]) == [(s, 0)];
    assert [] + [s] == [s];
  }

  /** Taking the head off the queue: the rest is the `distance` state of
      the head's expansion, with the head's walk at hand. */
  lemma PathPop(g: Graph, s: string, l: seq<(string, seq<string>)>, visited: seq<string>, expanded: set<string>)
    requires PathInv(g, s, l, visited, expanded) && |l| > 0
    ensures LayerMid(g, s, Dists(l[1..]), visited, expanded, l[0].0, |l[0].1|)
    ensures PathsOk(g, s, l[1..]) && PathTo(g, s, l[0].1 + [l[0].0], l[0].0)
  {
    DistsTail(l);
    LayerPop(g, s, Dists(l), visited, expanded);
    var t := l[1..];
    forall i | 0 <= i < |t|
      ensures PathTo(g, s, t[i].1 + [t[i].0], t[i].0)
    {
      assert t[i] == l[i + 1];
    }
  }

  /** An entry of `node` naming `d` extends the walk to `node` to one to
      `d`. */
  lemma PathFound(g: Graph, s: string, d: string, preds: seq<string>, node: string)
    requires WellFormed(g) && Simple(g) && node in g.adj
    requires PathTo(g, s, preds + [node], node) && NamesVertex(g.adj[node], d)
    ensures PathTo(g, s, preds + [node, d], d) && WalkOfLen(g, s, d, |preds| + 1)
  {
    var j :| 0 <= j < |g.adj[node]| && g.adj[node][j].name == d;
    EntryArc(g, node, j);
    PathExtend(g, s, preds + [node], node, d);
    assert preds + [node] + [d] == preds + [node, d];
    PathWalk(g, s, preds + [node, d], d);
  }

  /** The vertices queued behind `node` carry walks through `node`. */
  lemma PathsQueued(g: Graph, s: string, l: seq<(string, seq<string>)>, p: seq<string>, node: string, f: seq<string>)
    requires PathsOk(g, s, l) && PathTo(g, s, p + [node], node)
    requires forall x :: x in f ==> Arc(g, node, x)
    ensures PathsOk(g, s, l + Tagged<seq<string>>(f, p + [node]))
  {
    var l' := l + Tagged<seq<string>>(f, p + [node]);
    forall i | 0 <= i < |l'|
      ensures PathTo(g, s, l'[i].1 + [l'[i].0], l'[i].0)
    {
      if i < |l| {
        assert l'[i] == l[i];
      } else {
        var x := f[i - |l|];
        assert l'[i] == (x, p + [node]);
        PathExtend(g, s, p + [node], node, x);
      }
    }
  }

  /** One round of `shortest_path` that does not meet the target keeps
      the invariant, and visits a new vertex or shortens the queue. */
  lemma PathStep(g: Graph, s: string, d: string, l: seq<(string, seq<string>)>, visited: seq<string>, expanded: set<string>,
                 node: string, preds: seq<string>)
    requires WellFormed(g) && Simple(g) && LayerMid(g, s, Dists(l), visited, expanded, node, |preds|)
    requires Avoids(g, d, visited, expanded) && !NamesVertex(g.adj[node], d)
    requires PathsOk(g, s, l) && PathTo(g, s, preds + [node], node)
    ensures var f := Fresh(visited, [], node, g.adj[node], false);
      PathInv(g, s, l + Tagged<seq<string>>(f, preds + [node]), visited + f, expanded + {node})
      && Avoids(g, d, visited + f, expanded + {node})
      && ((f == [] && visited + f == visited) || g.adj.Keys - (set x | x in visited + f) < g.adj.Keys - (set x | x in visited))
  {
    var f := Fresh(visited, [], node, g.adj[node], false);
    DistanceStep(g, s, d, Dists(l), visited, expanded, node, |preds|);
    DistsTagged(l, f, preds + [node]);
    assert |preds + [node]| == |preds| + 1;
    FreshArcs(g, s, [], visited, node, false);
    PathsQueued(g, s, l, preds, node, f);
  }

  /** With the queue empty and `d` avoided, no walk reaches `d`. */
  lemma PathDone(g: Graph, s: string, d: string, visited: seq<string>, expanded: set<string>)
    requires PathInv(g, s, [], visited, expanded) && Avoids(g, d, visited, expanded)
    ensures forall n: nat :: !WalkOfLen(g, s, d, n)
  {
    assert Dists([]) == [];
    LayerDone(g, s, d, visited, expanded);
  }
}
