/** The invariant of the breadth-first searches `distance` and
    `shortest_path` of `MyGraph`: the queue holds vertices with their
    exact distance from the start, in order of distance, spanning at most
    one layer, and every vertex closer than the head of the queue has
    been expanded. */
module GraphDistance {
  import opened SeqFacts
  import opened GraphModel
  import opened GraphSearch

  /** The vertices of a queue of `(vertex, tag)` pairs. */
  function Firsts<L>(l: seq<(string, L)>): (r: seq<string>)
    ensures |r| == |l| && forall i :: 0 <= i < |l| ==> r[i] == l[i].0
  {
    seq(|l|, i requires 0 <= i < |l| => l[i].0)
  }

  /** The pairs `(x, t)` for the vertices `x` of `xs`. */
  function Tagged<L>(xs: seq<string>, t: L): (r: seq<(string, L)>)
    ensures |r| == |xs| && forall i :: 0 <= i < |xs| ==> r[i] == (xs[i], t)
  {
    seq(|xs|, i requires 0 <= i < |xs| => (xs[i], t))
  }

  lemma TaggedAppend<L>(xs: seq<string>, x: string, t: L)
    ensures Tagged(xs + [x], t) == Tagged(xs, t) + [(x, t)]
  {
  }

  lemma FirstsTagged<L>(l: seq<(string, L)>, xs: seq<string>, t: L)
    ensures Firsts(l + Tagged(xs, t)) == Firsts(l) + xs
  {
  }

  /** Queue distances never decrease and span at most one layer. */
  ghost predicate Layered(l: seq<(string, nat)>)
  {
    (forall i, j :: 0 <= i < j < |l| ==> l[i].1 <= l[j].1)
    && (forall i :: 0 <= i < |l| ==> l[i].1 <= l[0].1 + 1)
  }

  /** Every vertex with a walk from `s` shorter than `n` is expanded. */
  ghost predicate Below(g: Graph, s: string, n: nat, expanded: set<string>)
  {
    forall x, j: nat :: j < n && WalkOfLen(g, s, x, j) ==> x in expanded
  }

  /** The part of the invariant that does not mention the target. */
  ghost predicate LayerInv(g: Graph, s: string, l: seq<(string, nat)>, visited: seq<string>, expanded: set<string>)
  {
    s in visited && Distinct(Firsts(l))
    && (forall x :: x in visited ==> x in g.adj)
    && (forall i :: 0 <= i < |l| ==> l[i].0 in visited && l[i].0 !in expanded && MinWalk(g, s, l[i].0, l[i].1))
    && (forall x :: x in visited ==> x in expanded || x in Firsts(l))
    && (forall x :: x in expanded ==> x in visited)
    && Expanded(g, expanded, set x | x in visited)
    && Layered(l)
    && (|l| > 0 ==> Below(g, s, l[0].1, expanded))
  }

  /** The target `d` is neither visited nor a successor of an expanded
      vertex. */
  ghost predicate Avoids(g: Graph, d: string, visited: seq<string>, expanded: set<string>)
  {
    d !in visited && forall a :: a in expanded ==> !Arc(g, a, d)
  }

  /** The state while the entries of `node`, taken off the queue with
      distance `n`, are walked. */
  ghost predicate LayerMid(g: Graph, s: string, l: seq<(string, nat)>, visited: seq<string>, expanded: set<string>,
                           node: string, n: nat)
  {
    s in visited && Distinct(Firsts(l))
    && node in g.adj && node in visited && node !in expanded && node !in Firsts(l) && MinWalk(g, s, node, n)
    && (forall x :: x in visited ==> x in g.adj)
    && (forall i :: 0 <= i < |l| ==> l[i].0 in visited && l[i].0 !in expanded && MinWalk(g, s, l[i].0, l[i].1))
    && (forall x :: x in visited ==> x in expanded || x in Firsts(l) || x == node)
    && (forall x :: x in expanded ==> x in visited)
    && Expanded(g, expanded, set x | x in visited)
    && (forall i, j :: 0 <= i < j < |l| ==> l[i].1 <= l[j].1)
    && (forall i :: 0 <= i < |l| ==> n <= l[i].1 <= n + 1)
    && Below(g, s, n, expanded)
  }

  lemma LayerStart(g: Graph, s: string)
    requires s in g.adj
    ensures LayerInv(g, s, [(s, 0)], [s], {})
  {
    WalkNil(g, s, s);
    assert Firsts([(s, 0)]) == [s];
  }

  lemma LayerPop(g: Graph, s: string, l: seq<(string, nat)>, visited: seq<string>, expanded: set<string>)
    requires LayerInv(g, s, l, visited, expanded) && |l| > 0
    ensures LayerMid(g, s, l[1..], visited, expanded, l[0].0, l[0].1)
  {
    FirstsTail(l);
    PopEntries(g, s, l, visited, expanded);
    PopLayered(l);
  }

  /** The entries behind the head keep their facts. */
  lemma PopEntries(g: Graph, s: string, l: seq<(string, nat)>, visited: seq<string>, expanded: set<string>)
    requires |l| > 0
    requires forall i :: 0 <= i < |l| ==> l[i].0 in visited && l[i].0 !in expanded && MinWalk(g, s, l[i].0, l[i].1)
    ensures var t := l[1..];
      forall i :: 0 <= i < |t| ==> t[i].0 in visited && t[i].0 !in expanded && MinWalk(g, s, t[i].0, t[i].1)
  {
    var t := l[1..];
    forall i | 0 <= i < |t|
      ensures t[i].0 in visited && t[i].0 !in expanded && MinWalk(g, s, t[i].0, t[i].1)
    {
      assert t[i] == l[i + 1];
    }
  }

  /** The distances behind the head stay sorted, within one of the
      head's. */
  lemma PopLayered(l: seq<(string, nat)>)
    requires Layered(l) && |l| > 0
    ensures var t, n := l[1..], l[0].1;
      (forall i, j :: 0 <= i < j < |t| ==> t[i].1 <= t[j].1)
      && (forall i :: 0 <= i < |t| ==> n <= t[i].1 <= n + 1)
  {
    var t, n := l[1..], l[0].1;
    forall i | 0 <= i < |t|
      ensures n <= t[i].1 <= n + 1
    {
      assert t[i] == l[i + 1];
    }
    forall i, j | 0 <= i < j < |t|
      ensures t[i].1 <= t[j].1
    {
      assert t[i] == l[i + 1] && t[j] == l[j + 1];
    }
  }

  /** The names queued behind the head of a queue without repeated
      names. */
  lemma FirstsTail<L>(l: seq<(string, L)>)
    requires Distinct(Firsts(l)) && |l| > 0
    ensures Distinct(Firsts(l[1..])) && l[0].0 !in Firsts(l[1..])
    ensures forall x :: x in Firsts(l) <==> x == l[0].0 || x in Firsts(l[1..])
  {
    assert Firsts(l[1..]) == Firsts(l)[1..];
    DistinctTail(Firsts(l));
    assert forall x :: x in Firsts(l) <==> x == l[0].0 || x in Firsts(l[1..]);
    assert l[0].0 !in Firsts(l[1..]) by {
      forall i | 0 <= i < |l| - 1
        ensures Firsts(l[1..])[i] != Firsts(l)[0]
      {
        assert Firsts(l[1..])[i] == Firsts(l)[i + 1];
      }
    }
  }

  /** No walk from `s` to `d` is at most `n` edges long when every vertex
      closer than `n` is expanded and none of them has an edge to `d`. */
  lemma NoShorter(g: Graph, s: string, d: string, n: nat, expanded: set<string>)
    requires s != d && Below(g, s, n, expanded) && forall a :: a in expanded ==> !Arc(g, a, d)
    ensures forall j: nat :: j <= n ==> !WalkOfLen(g, s, d, j)
  {
    forall j: nat | j <= n
      ensures !WalkOfLen(g, s, d, j)
    {
      WalkNil(g, s, d);
      WalkBack(g, s, d, j);
    }
  }

  /** An entry of `node` naming `d` gives the shortest walk to `d`. */
  lemma LayerFound(g: Graph, s: string, d: string, l: seq<(string, nat)>, visited: seq<string>, expanded: set<string>,
                   node: string, n: nat)
    requires WellFormed(g) && Simple(g) && LayerMid(g, s, l, visited, expanded, node, n) && Avoids(g, d, visited, expanded)
    requires NamesVertex(g.adj[node], d)
    ensures MinWalk(g, s, d, n + 1)
  {
    var j :| 0 <= j < |g.adj[node]| && g.adj[node][j].name == d;
    EntryArc(g, node, j);
    WalkExtend(g, s, node, n, d);
    NoShorter(g, s, d, n, expanded);
  }

  /** A new successor of `node` is exactly one edge further than `node`. */
  lemma NewDistance(g: Graph, s: string, node: string, n: nat, visited: seq<string>, expanded: set<string>, x: string)
    requires MinWalk(g, s, node, n) && Arc(g, node, x) && x !in visited && s in visited
    requires Below(g, s, n, expanded) && Expanded(g, expanded, set y | y in visited)
    ensures MinWalk(g, s, x, n + 1)
  {
    WalkExtend(g, s, node, n, x);
    forall j: nat | j < n + 1
      ensures !WalkOfLen(g, s, x, j)
    {
      WalkNil(g, s, x);
      WalkBack(g, s, x, j);
    }
  }

  /** After `node` is expanded and its new successors are queued one
      layer further, the invariant holds again. */
  lemma LayerExpand(g: Graph, s: string, l: seq<(string, nat)>, visited: seq<string>, expanded: set<string>,
                    node: string, n: nat)
    requires WellFormed(g) && Simple(g) && LayerMid(g, s, l, visited, expanded, node, n)
    ensures var f := Fresh(visited, [], node, g.adj[node], false);
      LayerInv(g, s, l + Tagged<nat>(f, n + 1), visited + f, expanded + {node})
  {
    var f := Fresh(visited, [], node, g.adj[node], false);
    FreshFacts(visited, [], node, g.adj[node], false);
    FreshArcs(g, s, [], visited, node, false);
    forall x | x in f
      ensures MinWalk(g, s, x, n + 1)
    {
      NewDistance(g, s, node, n, visited, expanded, x);
    }
    QueueEntries(g, s, l, visited, expanded, node, n, f);
    QueueDistinct(l, visited, f, n);
    QueueLayered(l, f, n);
    FirstsTagged<nat>(l, f, n + 1);
    LayerClosed(g, visited, expanded, node, f);
    LayerNext(g, s, l + Tagged<nat>(f, n + 1), visited + f, expanded, node, n);
  }

  /** The queued pairs after the expansion of `node` are visited, not
      expanded, and carry their exact distances. */
  lemma QueueEntries(g: Graph, s: string, l: seq<(string, nat)>, visited: seq<string>, expanded: set<string>,
                     node: string, n: nat, f: seq<string>)
    requires forall i :: 0 <= i < |l| ==> l[i].0 in visited && l[i].0 !in expanded && MinWalk(g, s, l[i].0, l[i].1)
    requires node !in Firsts(l) && node in visited && forall x :: x in expanded ==> x in visited
    requires forall x :: x in f ==> x !in visited && MinWalk(g, s, x, n + 1)
    ensures var l' := l + Tagged<nat>(f, n + 1);
      forall i :: 0 <= i < |l'| ==> l'[i].0 in visited + f && l'[i].0 !in expanded + {node} && MinWalk(g, s, l'[i].0, l'[i].1)
  {
    var l' := l + Tagged<nat>(f, n + 1);
    forall i | 0 <= i < |l'|
      ensures l'[i].0 in visited + f && l'[i].0 !in expanded + {node} && MinWalk(g, s, l'[i].0, l'[i].1)
    {
      if i < |l| {
        assert l'[i] == l[i] && Firsts(l)[i] == l[i].0;
      } else {
        assert l'[i] == (f[i - |l|], n + 1);
        assert f[i - |l|] in f;
      }
    }
  }

  /** Queueing new vertices keeps the queue free of repeats. */
  lemma QueueDistinct(l: seq<(string, nat)>, visited: seq<string>, f: seq<string>, n: nat)
    requires Distinct(Firsts(l)) && Distinct(f) && (forall x :: x in Firsts(l) ==> x in visited)
    requires forall x :: x in f ==> x !in visited
    ensures Distinct(Firsts(l + Tagged<nat>(f, n + 1)))
  {
    FirstsTagged<nat>(l, f, n + 1);
    DistinctConcat(Firsts(l), f);
  }

  /** Queueing at distance `n + 1` behind a queue within `[n, n + 1]`
      keeps it layered. */
  lemma QueueLayered(l: seq<(string, nat)>, f: seq<string>, n: nat)
    requires forall i, j :: 0 <= i < j < |l| ==> l[i].1 <= l[j].1
    requires forall i :: 0 <= i < |l| ==> n <= l[i].1 <= n + 1
    ensures var l' := l + Tagged<nat>(f, n + 1);
      Layered(l') && (forall i, j :: 0 <= i < j < |l'| ==> l'[i].1 <= l'[j].1)
      && forall i :: 0 <= i < |l'| ==> n <= l'[i].1 <= n + 1
  {
  }

  /** `node` joins the expanded vertices once its successors are
      visited. */
  lemma LayerClosed(g: Graph, visited: seq<string>, expanded: set<string>, node: string, f: seq<string>)
    requires Expanded(g, expanded, set x | x in visited) && node in visited
    requires forall b :: Arc(g, node, b) ==> b in [] || b in visited || b in f || b == node
    ensures Expanded(g, expanded + {node}, set x | x in visited + f)
  {
    assert (set x | x in visited + f) == (set x | x in visited) + (set x | x in f);
  }

  /** Every vertex closer than the new head of the queue is expanded: a
      vertex `n` edges from `s` is visited (its predecessor on a shortest
      walk is expanded), and cannot still be queued when the whole queue
      is one layer further. */
  lemma LayerNext(g: Graph, s: string, l: seq<(string, nat)>, visited: seq<string>, expanded: set<string>,
                  node: string, n: nat)
    requires s in visited && Below(g, s, n, expanded) && Expanded(g, expanded, set x | x in visited)
    requires forall x :: x in visited ==> x in expanded + {node} || x in Firsts(l)
    requires forall i :: 0 <= i < |l| ==> MinWalk(g, s, l[i].0, l[i].1) && n <= l[i].1 <= n + 1
    requires forall i, j :: 0 <= i < j < |l| ==> l[i].1 <= l[j].1
    ensures |l| > 0 ==> Below(g, s, l[0].1, expanded + {node})
  {
    if |l| > 0 && l[0].1 == n + 1 {
      forall x, j: nat | j < n + 1 && WalkOfLen(g, s, x, j)
        ensures x in expanded + {node}
      {
        WalkNil(g, s, x);
        WalkBack(g, s, x, j);
        NotQueued(g, s, l, x, n);
      }
    }
  }

  /** A vertex `n` edges from `s` is not in a queue whose distances all
      exceed `n`. */
  lemma NotQueued(g: Graph, s: string, l: seq<(string, nat)>, x: string, n: nat)
    requires forall i :: 0 <= i < |l| ==> MinWalk(g, s, l[i].0, l[i].1) && n < l[i].1
    ensures WalkOfLen(g, s, x, n) ==> x !in Firsts(l)
  {
    forall i | 0 <= i < |l|
      ensures WalkOfLen(g, s, x, n) ==> l[i].0 != x
    {
    }
  }

  /** With the queue empty, no walk leads from `s` to `d`. */
  lemma LayerDone(g: Graph, s: string, d: string, visited: seq<string>, expanded: set<string>)
    requires LayerInv(g, s, [], visited, expanded) && Avoids(g, d, visited, expanded)
    ensures forall n: nat :: !WalkOfLen(g, s, d, n)
  {
    var e := set x | x in visited;
    assert e == expanded;
    forall n: nat
      ensures !WalkOfLen(g, s, d, n)
    {
      WalkNil(g, s, d);
      WalkBack(g, s, d, n);
      forall w | 1 <= n && WalkOfLen(g, s, w, n - 1)
        ensures w in expanded
      {
        ClosedWalk(g, e, s, w, n - 1);
      }
    }
  }

  /** Visiting the new successors of an expanded vertex other than `d`
      keeps `d` avoided. */
  lemma AvoidsExpand(g: Graph, d: string, visited: seq<string>, expanded: set<string>, node: string, f: seq<string>)
    requires Avoids(g, d, visited, expanded)
    requires forall b :: Arc(g, node, b) ==> b != d
    requires forall x :: x in f ==> Arc(g, node, x)
    ensures Avoids(g, d, visited + f, expanded + {node})
  {
  }

  /** One round of `distance` that does not meet the target: the
      invariant and the avoidance of `d` are kept, and either a new vertex
      is visited or the queue is one shorter. */
  lemma DistanceStep(g: Graph, s: string, d: string, l: seq<(string, nat)>, visited: seq<string>, expanded: set<string>,
                     node: string, n: nat)
    requires WellFormed(g) && Simple(g) && LayerMid(g, s, l, visited, expanded, node, n)
    requires Avoids(g, d, visited, expanded) && !NamesVertex(g.adj[node], d)
    ensures var f := Fresh(visited, [], node, g.adj[node], false);
      LayerInv(g, s, l + Tagged<nat>(f, n + 1), visited + f, expanded + {node})
      && Avoids(g, d, visited + f, expanded + {node})
      && ((f == [] && visited + f == visited) || g.adj.Keys - (set x | x in visited + f) < g.adj.Keys - (set x | x in visited))
  {
    var f := Fresh(visited, [], node, g.adj[node], false);
    LayerExpand(g, s, l, visited, expanded, node, n);
    FreshFacts(visited, [], node, g.adj[node], false);
    FreshArcs(g, s, [], visited, node, false);
    NoArcTo(g, node, d);
    AvoidsExpand(g, d, visited, expanded, node, f);
    VisitShrinks(g.adj.Keys, visited, f);
  }
}
